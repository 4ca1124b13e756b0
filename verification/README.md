# PL110 line converters, framebuffer helpers, legacy audio options and the fbdev keyboard

This is a Dafny model of four pieces of QEMU:

- **The PL110 LCD controller's scanline converters.**
  - `hw/display/pl110_template.h` instantiates one converter per source depth, per memory layout and per channel order. The source depths are 1, 2, 4, 8, 16 (5:6:5), 16 (5:5:5+I), 12 (4:4:4) and 32 bpp. The memory layouts are lblp, bbbp and lbbp. The channel orders are BGR and RGB.
  - The converters are gathered into the 48-entry `pl110_draw` table.
  - The model has one parameterised converter, `Pl110Convert.DrawLine`. It takes the configuration the preprocessor would pick: the depth, the `SWAP_WORDS` and `SWAP_PIXELS` flags, and `RGB`.
  - The table is modelled entry for entry, including each entry's pixman format tag on either host byte order.
- **The framebuffer helper `hw/display/framebuffer.c`.**
  - Row selection in `framebuffer_update_display` and `framebuffer_update_display_swap_pixman`. A row is drawn when it is dirty, or when the update is forced because `invalidate` is set or dirty logging is off.
  - The out-parameters `*first_row` and `*last_row`, and the `memory_region_reset_dirty` decision.
  - The destination offsets when the pitches are negative.
  - `framebuffer_swap`, in all four swap modes, on a host of either byte order.
- **The legacy audio environment translation `audio/audio_legacy.c`.**
  - `toull` and `tostr`, the transforms in `transform_val`, and the frame, sample and byte to microsecond conversions.
  - The walk of `handle_env_opts` over `global_map`, and `legacy_opt`.
- **The fbdev console's keyboard handling in `ui/fbdev.c`.**
  - The medium-raw byte stream that `read_mediumraw` decodes.
  - The `key_down` state, the Ctrl+Alt hot keys and `reset_keys`.
  - `send_scancode` with `scancode_map`, which feeds the guest's PC keyboard.
  - `send_keysym` with `keysym_map_en_us`, which feeds a text console.

Modules:

- `Wrappers`: `Option` and `Result`.
- `Bits`: byte swaps, and word loads and stores on either host byte order.
- `Decimal`: decimal rendering and parsing.
- `Pl110Format`, `Pl110Convert`, `Pl110Properties`, `Pl110Table`.
- `Framebuffer`.
- `AudioLegacy`.
- `FbdevKeymaps`, `FbdevMediumraw`.

Scope and representation:

- Host effects become values.
  - A converter returns the sequence of pixels it stores. A directly coloured pixel is the abstract `RgbToPixel32(r, g, b)` call.
  - An update returns the converter calls it makes, with each call's source and destination offsets.
  - The keyboard handler returns the events it hands to the rest of QEMU, with a flag for `exit(1)`. The events are `kbd_put_keycode`, `kbd_put_keysym`, `fbdev_activate_vt` and `console_select`.
- A translation that ends in `exit(1)` returns an error value instead.
- Where the code has a defect (see "## Findings"), the model keeps the code as written and a corrected version side by side.
  - As written: `FbdevKeymaps.KeysymAsWritten`, `FbdevMediumraw.HandleKeyAsWritten`, `RunAsWritten`, `ReadMediumrawAsWritten`, and `AudioLegacy.TransformVal` with `BytesToUsecsAsWritten`.
  - Corrected: `FbdevKeymaps.KeysymUs`, `FbdevMediumraw.HandleKey`, `Run`, `ReadMediumraw`, and `AudioLegacy.BytesToUsecs`.
  - Rows of the table below marked "corrected" state a property of the corrected version.
- Key bytes and scancodes are natural numbers below 256. `FbdevKeymaps.MaskOps` shows that the arithmetic forms used for `& 0x80`, `| 0x80` and `& 0x7f` agree with the bit operations on every byte.

Where the prose description of the PL110 5:6:5 format and the code differ, the model follows the code. With `RGB` defined, the low five bits go to red and the top five bits go to blue. So the halfword 0xF800 becomes blue 0xF8 under RGB and red 0xF8 under BGR, as `Pl110Properties.Example565` states.

## Model

| member | source | states |
|---|---|---|
| Bits.Bswap16 | hw/display/framebuffer.c:137 | bswap16 puts the high byte low and the low byte high |
| Bits.Bswap32Bytes | hw/display/pl110_template.h:245 | bswap32 reverses the four bytes of a word |
| Bits.SwapHalves | hw/display/framebuffer.c:155-156 | the word swap puts the high halfword low and the low halfword high |
| Bits.Bswap16Involutive | hw/display/framebuffer.c:137 | swapping a halfword's bytes twice gives it back |
| Bits.Bswap32Involutive | hw/display/pl110_template.h:245 | bswap32 applied twice gives the word back |
| Bits.SwapHalvesInvolutive | hw/display/framebuffer.c:155-156 | exchanging halfwords twice gives the word back |
| Bits.StoreWord | hw/display/pl110_template.h:135 | a stored word loads back as the same word on the same host |
| Bits.LoadWordHosts | hw/display/pl110_template.h:135 | the same four bytes load on a big-endian host as the byte-swapped little-endian word |
| Bits.StoreLoadWord | hw/display/pl110_template.h:135 | loading four bytes and storing the word gives the bytes back |
| Decimal.ValueOfRender | audio/audio_legacy.c:61-67 | parsing the `%llu` rendering of n gives n |
| Decimal.RenderOfValue | audio/audio_legacy.c:50-58 | a canonical digit string (no leading zero) is the rendering of its own value |
| Decimal.RenderLength | audio/audio_legacy.c:63-66 | a number below 10^k renders in at most k digits |
| Pl110Format.VariantConfig | hw/display/pl110_template.h:108-124 | lbbp alone sets SWAP_PIXELS; SWAP_WORDS is set for bbbp on a little-endian host and for lblp and lbbp on a big-endian one; the depth and channel order pass through |
| Pl110Format.VariantConfigHosts | hw/display/pl110_template.h:108-124 | moving to a host of the other byte order flips SWAP_WORDS and changes nothing else |
| Pl110Convert.WordsRead | hw/display/pl110_template.h:134-155 | the loop reads the fewest words whose pixels cover `width`, and none for a width of zero or less |
| Pl110Convert.LinePixels | hw/display/pl110_template.h:130-388 | a line yields exactly the word count times the pixels per word |
| Pl110Convert.LinePixelsAt | hw/display/pl110_template.h:134-155 | pixel x of word k lands at position k*ppw+x of the line |
| Pl110Convert.DrawLine | hw/display/pl110_template.h:130-388 | the converter loop emits the pixels of the first WordsRead(width) source words, and exactly `width` pixels when width is a whole number of words |
| Pl110Convert.IndexedWord | hw/display/pl110_template.h:130-236 | a word at 1, 2, 4 or 8 bpp gives 32, 16, 8 or 4 pixels, every one a palette entry |
| Pl110Convert.Pixel565 | hw/display/pl110_template.h:262-269 | a 5:6:5 pixel has every channel within 8 bits |
| Pl110Convert.Pixel555 | hw/display/pl110_template.h:331-337 | a 5:5:5 pixel has every channel within 8 bits |
| Pl110Convert.Pixel444 | hw/display/pl110_template.h:369-375 | a 4:4:4 pixel has every channel within 8 bits |
| Pl110Convert.Pixel32 | hw/display/pl110_template.h:297-306 | a 32 bpp pixel has every channel within 8 bits |
| Pl110Properties.FieldShiftFormula | hw/display/pl110_template.h:136-140 | field x of a byte sits at bit x*n, or at 8-n-x*n under SWAP_PIXELS |
| Pl110Properties.FieldFits | hw/display/pl110_template.h:136-140 | every field's mask stays inside its byte |
| Pl110Properties.FieldShiftsReverse | hw/display/pl110_template.h:136-140 | SWAP_PIXELS visits a byte's fields in reverse order |
| Pl110Properties.PixelOrderMirror | hw/display/pl110_template.h:164-168 | SWAP_PIXELS mirrors the pixels within each byte's block and keeps the blocks in place |
| Pl110Properties.ConvertWordRange | hw/display/pl110_template.h:130-388 | indexed pixels are entries of the palette; direct pixels have 8-bit channels |
| Pl110Properties.IndexedWordFlags | hw/display/pl110_template.h:130-236 | the indexed converters depend only on the depth and the two swap flags, not on RGB |
| Pl110Properties.SwapPixelsIgnoredFrom8 | hw/display/pl110_template.h:214-236 | at 8 bpp and above SWAP_PIXELS makes no difference |
| Pl110Properties.Pixel32Swap | hw/display/pl110_template.h:297-305 | the word-swapped 32 bpp reading equals the plain reading of the byte-swapped word |
| Pl110Properties.IndexedWordSwap | hw/display/pl110_template.h:141-151 | visiting the bytes from the top equals visiting the byte-swapped word from the bottom |
| Pl110Properties.DirectWordSwap | hw/display/pl110_template.h:244-246 | the SWAP_WORDS direct converters equal the plain ones on bswap32 of the word |
| Pl110Properties.WordSwapEquivalence | hw/display/pl110_template.h:141-151 | every depth: with SWAP_WORDS, a word converts as bswap32 of it does without |
| Pl110Properties.LineSwapEquivalence | hw/display/pl110_template.h:130-388 | the same for a whole line of words |
| Pl110Properties.GuestWordsHosts | hw/display/pl110_template.h:135 | a line of guest bytes loads on a big-endian host as the byte-swapped little-endian words |
| Pl110Properties.HostIndependence | hw/display/pl110_template.h:108-124 | every converter named by depth, variant and order draws the same pixels from the same guest bytes on either host |
| Pl110Properties.WordHostIndependence | hw/display/pl110_template.h:108-124 | the same for one word |
| Pl110Properties.IndexedFromGuestBytes | hw/display/pl110_template.h:130-236 | an indexed word draws its guest bytes in memory order for lblp and lbbp and from the last byte for bbbp, each byte's fields in order, mirrored for lbbp |
| Pl110Properties.GuestByteFields8 | hw/display/pl110_template.h:220-230 | at 8 bpp a guest byte is one palette index |
| Pl110Properties.Indexed8Example | hw/display/pl110_template.h:214-236 | guest bytes 5, 9, 5, 9 at 8 bpp lblp draw palette[5], palette[9], palette[5], palette[9] on either host |
| Pl110Properties.PackSwap | hw/display/pl110_template.h:247-253 | RGB assigns the low field to red where BGR assigns it to blue |
| Pl110Properties.HalfwordChannelSwap | hw/display/pl110_template.h:247-253 | the 16, 5:5:5 and 12 bpp RGB pixels are the BGR ones with red and blue exchanged |
| Pl110Properties.DirectChannelSwap | hw/display/pl110_template.h:290-296 | for every direct depth, RGB and BGR differ only in red and blue |
| Pl110Properties.ChannelOrderSwap | hw/display/pl110_template.h:247-253 | for every depth, RGB and BGR pixels differ only in the exchange of red and blue |
| Pl110Properties.Layout565 | hw/display/pl110_template.h:262-276 | pixel 0 comes from bits 0-15 and pixel 1 from bits 16-31, each as 5:6:5 scaled by 8, 4, 8 |
| Pl110Properties.Example565 | hw/display/pl110_template.h:262-269 | 0xF800 is red 0xF8 under BGR and blue 0xF8 under RGB |
| Pl110Properties.Range565 | hw/display/pl110_template.h:262-276 | 5:6:5 red and blue are multiples of 8 up to 0xF8; green is a multiple of 4 up to 0xFC |
| Pl110Properties.Layout555 | hw/display/pl110_template.h:331-344 | pixel 0 comes from bits 0-14 and pixel 1 from bits 15-29; the top two bits are ignored |
| Pl110Properties.Layout444 | hw/display/pl110_template.h:369-382 | pixel 0 comes from bits 0-11 and pixel 1 from bits 16-27, scaled by 16; the padding nibbles are ignored |
| Pl110Properties.Layout32 | hw/display/pl110_template.h:297-300 | the channels are bytes 0, 1 and 2, unscaled; byte 3 is ignored |
| Pl110Table.Table | hw/display/pl110_template.h:44-101 | the dispatch table has 48 entries |
| Pl110Table.TableLayout | hw/display/pl110_template.h:44-101 | each converter sits at slot 24*order+8*variant+column, with its format tag on either host |
| Pl110Table.GroupLayout | hw/display/pl110_template.h:45-53 | within a group of eight, a converter sits in its depth's column |
| Pl110Table.PositionInjective | hw/display/pl110_template.h:44-101 | no two converters share a slot |
| Pl110Table.LbbpAsLblp | hw/display/pl110_template.h:65-73 | the lbbp slots carry lblp's format tags at every depth, and at 8 bpp and above, tagged or not and on either host, they convert exactly as lblp does |
| Framebuffer.RowsToDrawMembers | hw/display/framebuffer.c:94-102 | a row is drawn iff it lies in [start, rows) and is dirty or invalidated |
| Framebuffer.RowsToDrawBounds | hw/display/framebuffer.c:94 | every drawn row lies in [start, rows) |
| Framebuffer.RowsToDrawIncreasing | hw/display/framebuffer.c:94-106 | rows are drawn in strictly increasing order |
| Framebuffer.InvalidateDrawsAll | hw/display/framebuffer.c:97 | with invalidate set, every row from start to rows-1 is drawn |
| Framebuffer.CallsForStep | hw/display/framebuffer.c:87-106 | one more row of the scan appends its call exactly when the row is dirty or the image invalidated |
| Framebuffer.ScanRows | hw/display/framebuffer.c:87-106 | the loop calls the converter for exactly the selected rows, with source i*src_width and destination origin+i*dest_row_pitch, and reports the first and last row drawn or -1 |
| Framebuffer.DestOrigin | hw/display/framebuffer.c:81-86 | with non-negative pitches the first destination pixel is at the surface start |
| Framebuffer.DestRowsInSurface | hw/display/framebuffer.c:81-92 | whatever the pitches' signs, each row's first pixel lies within the surface's extent |
| Framebuffer.UpdateDisplay | hw/display/framebuffer.c:26-117 | nothing is drawn and *first_row becomes -1 unless the whole source maps as RAM; otherwise the selected rows are drawn, and missing dirty logging forces every row; dirty bits are reset iff a row was drawn; *first_row and *last_row are the first and last rows drawn, or -1 and the unchanged *last_row |
| Framebuffer.TruncDiv | hw/display/framebuffer.c:178 | C's `/` truncates toward zero for either sign of the dividend |
| Framebuffer.UpdateDisplaySwapPixman | hw/display/framebuffer.c:165-248 | the same row selection with src_width = cols*bpp/8 and no logging override; each drawn row goes to image row i |
| Framebuffer.UnitCount | hw/display/framebuffer.c:133 | the loop handles stride / unit whole units |
| Framebuffer.Swap16Unit | hw/display/framebuffer.c:132-140 | FB_SWAP_16_BYTES exchanges the two bytes of each halfword on either host |
| Framebuffer.Swap32BytesUnit | hw/display/framebuffer.c:141-149 | FB_SWAP_32_BYTES reverses each word's four bytes on either host |
| Framebuffer.Swap32WordsUnit | hw/display/framebuffer.c:150-159 | FB_SWAP_32_WORDS exchanges the byte pairs of each word on either host |
| Framebuffer.SwapUnitPermutes | hw/display/framebuffer.c:126-162 | every mode rearranges each unit by a fixed permutation, independent of the host |
| Framebuffer.UnitPartnerInvolutive | hw/display/framebuffer.c:126-162 | each mode's permutation is its own inverse |
| Framebuffer.SwapUnits | hw/display/framebuffer.c:132-159 | the loop over the first n units of the row builds the reference: each unit permuted in place |
| Framebuffer.FramebufferSwap | hw/display/framebuffer.c:119-163 | the swap succeeds iff the row holds the stride's whole units; then the line buffer's whole units hold the row's units permuted and the bytes past them are untouched; otherwise it reads past the row's end, at the index equal to the row's length |
| Framebuffer.ShortRowReadsPast | hw/display/framebuffer.c:132-140 | a six-byte row of 16-bit pixels swapped into an eight-byte line buffer reads past the row at index 6 |
| Framebuffer.SwappedAt | hw/display/framebuffer.c:119-163 | byte t of unit q of the result is byte UnitPartner(t) of source unit q |
| Framebuffer.SwappedInvolutive | hw/display/framebuffer.c:119-163 | swapping a swapped line restores it in every mode |
| Framebuffer.SourceIndexInvolutive | hw/display/framebuffer.c:119-163 | following a byte's source twice leads back to the byte |
| AudioLegacy.WrapSmall | audio/audio_legacy.c:74 | uint64_t arithmetic is exact below 2^64 |
| AudioLegacy.Tostr | audio/audio_legacy.c:61-67 | tostr gives the full decimal rendering, which always fits in LEN |
| AudioLegacy.Truncate | audio/audio_legacy.c:66 | snprintf keeps a prefix of at most n characters, and all of a shorter string |
| AudioLegacy.DigitsOfU64 | audio/audio_legacy.c:63-64 | a 64-bit value has at most 20 digits |
| AudioLegacy.ToullOfTostr | audio/audio_legacy.c:50-68 | toull reads back what tostr writes |
| AudioLegacy.TostrOfToull | audio/audio_legacy.c:50-68 | whatever toull accepts renders canonically; a canonical string comes back unchanged |
| AudioLegacy.ToullRejects | audio/audio_legacy.c:50-58 | toull fails on the empty string, on any non-digit and on a value of 2^64 or more |
| AudioLegacy.Quotient | audio/audio_legacy.c:139 | an unsigned quotient is no larger than the dividend |
| AudioLegacy.RoundedDivision | audio/audio_legacy.c:74 | adding half the divisor before dividing rounds to the nearest integer |
| AudioLegacy.NearestQuotientUnique | audio/audio_legacy.c:74 | the nearest quotient is unique |
| AudioLegacy.FramesToUsecsRounds | audio/audio_legacy.c:70-75 | the frequency defaults to 44100; the conversion fails iff the frequency is unreadable or zero; otherwise it is the frames' duration rounded to the nearest microsecond |
| AudioLegacy.SamplesToUsecsRounds | audio/audio_legacy.c:77-82 | channels default to 2; a partial frame is dropped, then the duration is rounded; it fails iff channels or frequency is unreadable or zero |
| AudioLegacy.BytesToUsecsAsWrittenCountsFrames | audio/audio_legacy.c:84-90 | with the defaults, the code as written treats the byte count as a frame count |
| AudioLegacy.OneSecondOfBytes | audio/audio_legacy.c:84-90 | 176400 bytes come out as 4000000 µs as written and as 1000000 µs as intended |
| AudioLegacy.BytesToUsecsFrames | audio/audio_legacy.c:84-90 | corrected: with the defaults a frame is four bytes, and the result is the whole frames' duration, rounded |
| AudioLegacy.FormatNameIsNoBitCount | audio/audio_legacy.c:86-88 | a format name such as "s16" stored by FMT makes the bytes conversion fail in toull |
| AudioLegacy.NoneAndBoolTransforms | audio/audio_legacy.c:96-100 | NONE passes the value through; BOOL accepts exactly what toull accepts and gives "on" iff the number is nonzero |
| AudioLegacy.LowerIdempotent | audio/audio_legacy.c:103 | case folding twice is folding once |
| AudioLegacy.FormatNameMatches | audio/audio_legacy.c:102-118 | FMT succeeds iff the value equals a known format ignoring case; it returns that format, and otherwise fails with the value |
| AudioLegacy.FormatNameIdempotent | audio/audio_legacy.c:102-118 | a normalised format name is kept as it is |
| AudioLegacy.MillisTransform | audio/audio_legacy.c:135-136 | MILLIS succeeds iff toull does, and without overflow gives 1000 times the number |
| AudioLegacy.HzTransform | audio/audio_legacy.c:138-139 | HZ fails on 0 and otherwise gives floor(1000000 / hz) |
| AudioLegacy.BytesTransformAsWritten | audio/audio_legacy.c:130-133 | the BYTES transforms accept a value iff toull and bytes_to_usecs as written do, store that conversion's result, and turn 176400 bytes into 4000000 µs |
| AudioLegacy.ContextFreeTransforms | audio/audio_legacy.c:95-139 | NONE, BOOL, FMT, MILLIS and HZ do not depend on the options |
| AudioLegacy.FramesTransformReadsFrequency | audio/audio_legacy.c:120-123 | FRAMES reads the frequency already set: "100" gives 2268 at the default and 100000 at 1000 Hz |
| AudioLegacy.FramesAtDefault | audio/audio_legacy.c:70-75 | 100 frames at 44100 Hz are 2268 µs |
| AudioLegacy.FramesAt1000 | audio/audio_legacy.c:70-75 | 100 frames at 1000 Hz are 100000 µs |
| AudioLegacy.HandleEnvOptsFrame | audio/audio_legacy.c:145-158 | the walk adds exactly the options of the set variables before the terminator and leaves every other option alone |
| AudioLegacy.HandleEnvOptsUnset | audio/audio_legacy.c:145-158 | with none of the variables set the options are unchanged |
| AudioLegacy.NotNamedNotSet | audio/audio_legacy.c:145-158 | an option no entry names is never set |
| AudioLegacy.HandleEnvOptsSets | audio/audio_legacy.c:145-158 | each reached entry whose variable is set ends with its transformed value, and the walk succeeds iff every such transform does |
| AudioLegacy.GlobalMapShape | audio/audio_legacy.c:28-48 | global_map has eleven entries and a terminator; the last entry is the timer period with HZ_TO_USECS; the options are distinct and the transforms read no option |
| AudioLegacy.LegacyOptEffect | audio/audio_legacy.c:160-168 | when qemu_opts_create refuses the id, &error_abort aborts before the walk; otherwise legacy_opt keeps "driver" = drv and sets each global_map option whose variable is set to its transformed value, succeeding iff all those transforms do |
| AudioLegacy.WalkFromDriver | audio/audio_legacy.c:160-168 | the same, for any well-formed map that does not name "driver" |
| FbdevKeymaps.MaskOps | ui/fbdev.c:439-445 | the arithmetic byte forms equal `& SCANCODE_GREY`, `\| SCANCODE_UP` and `& SCANCODE_KEYCODEMASK` |
| FbdevKeymaps.SendScancode | ui/fbdev.c:430-447 | send_scancode emits at most two bytes |
| FbdevKeymaps.ScancodeKeys | ui/fbdev.c:206-323 | scancode_map is nonzero exactly on key codes 1-83, 86-88, 96-100, 102-111 and 125-127 |
| FbdevKeymaps.ScancodeKeysBelow45 | ui/fbdev.c:206-323 | below key 45 every scancode equals its key code |
| FbdevKeymaps.ScancodeKeysFrom45 | ui/fbdev.c:206-323 | from key 45 to 88 the scancode is the key code, except 0 for keys 84 and 85 |
| FbdevKeymaps.ScancodeKeysHigh | ui/fbdev.c:206-323 | from key 89, the map is nonzero exactly on KPENTER, RIGHTCTRL, KPSLASH, SYSRQ, RIGHTALT, the navigation block and the meta and compose keys |
| FbdevKeymaps.ScancodeByte | ui/fbdev.c:206-323 | every scancode fits in a byte |
| FbdevKeymaps.ScancodeLayout | ui/fbdev.c:206-323 | low keys map to themselves; every high key's scancode is grey (0x80 set) |
| FbdevKeymaps.GreyInverse | ui/fbdev.c:206-323 | no two grey keys share a scancode |
| FbdevKeymaps.ScancodeRoundTrip | ui/fbdev.c:430-447 | an unmapped key sends nothing; a mapped key's bytes read back on a PC keyboard controller as that key and direction |
| FbdevKeymaps.SendKeysymIn | ui/fbdev.c:449-464 | send_keysym emits at most one keysym |
| FbdevKeymaps.TypesHeldRow | ui/fbdev.c:449-464 | a table that holds a row of non-NUL characters types that row, shifted and unshifted |
| FbdevKeymaps.NumberRow | ui/fbdev.c:355-367 | keys 1 to = type "1234567890-=", and with shift "!@#$%^&*()_+" |
| FbdevKeymaps.TopRow | ui/fbdev.c:328-370 | keys Q to ] type "qwertyuiop[]", and with shift "QWERTYUIOP{}" |
| FbdevKeymaps.HomeRow | ui/fbdev.c:328-373 | corrected table: keys A to ' type "asdfghjkl;'", and with shift "ASDFGHJKL:\"" |
| FbdevKeymaps.BottomRow | ui/fbdev.c:328-377 | keys \ to / type "\\zxcvbnm,./", and with shift "\|ZXCVBNM<>?" |
| FbdevKeymaps.UsLayout | ui/fbdev.c:325-385 | corrected table: every key of the four US rows types its character, shifted or not |
| FbdevKeymaps.ApostropheAsWritten | ui/fbdev.c:373 | as written, the apostrophe key types '"' unshifted and '\'' shifted, so the home row is not typed |
| FbdevKeymaps.ShiftKeepsKeys | ui/fbdev.c:454-461 | shift never turns a key that sends something into one that does not, or back |
| FbdevKeymaps.WhitespaceKeys | ui/fbdev.c:368-378 | Tab, Enter and Space give '\t', '\n' and ' ' with or without shift |
| FbdevKeymaps.EditingKeys | ui/fbdev.c:380-384 | Backspace and the arrows give QEMU's own key codes with or without shift |
| FbdevKeymaps.KeysymNormal | ui/fbdev.c:325-385 | no slot has a shifted symbol without a normal one |
| FbdevMediumraw.LongKeycode | ui/fbdev.c:500-501 | the 3-byte form's keycode is below 2^14 |
| FbdevMediumraw.Decode | ui/fbdev.c:496-503 | decoding yields at most one key per byte |
| FbdevMediumraw.EncodeKey | ui/fbdev.c:497-503 | the console's encoding of a key is a sequence of bytes |
| FbdevMediumraw.DecodeKey | ui/fbdev.c:497-503 | one key's encoding decodes to that key, whatever follows it |
| FbdevMediumraw.LongFormFields | ui/fbdev.c:500-501 | the two 7-bit fields of the 3-byte form rebuild the key code |
| FbdevMediumraw.DecodeEncode | ui/fbdev.c:496-503 | decoding the encoding of any key sequence gives the sequence back |
| FbdevMediumraw.ResetFrom | ui/fbdev.c:466-478 | reset_keys keeps the size of key_down |
| FbdevMediumraw.ReleaseSendsRelease | ui/fbdev.c:473 | a release sends only bytes with the top bit set |
| FbdevMediumraw.ResetFromEffect | ui/fbdev.c:466-478 | the keys in the range become up and no other flag changes; only releases are sent, and nothing when the console is not graphic or no key in range is down |
| FbdevMediumraw.HandleKey | ui/fbdev.c:504-553 | corrected: handling a key keeps key_down at KEY_CNT flags |
| FbdevMediumraw.Run | ui/fbdev.c:496-554 | corrected: the key loop keeps key_down at KEY_CNT flags |
| FbdevMediumraw.ReadMediumraw | ui/fbdev.c:480-560 | corrected: a read keeps key_down at KEY_CNT flags |
| FbdevMediumraw.FormAtAsWritten | ui/fbdev.c:497-503 | a form read as written ends after its first byte and within the buffer, or names the first index past the buffer |
| FbdevMediumraw.HandleFromAsWritten | ui/fbdev.c:496-554 | the loop as written, handling each form before reading the next, keeps key_down at KEY_CNT flags |
| FbdevMediumraw.ReadMediumrawAsWritten | ui/fbdev.c:480-560 | a read as written keeps key_down at KEY_CNT flags, whether or not it reads past the buffer |
| FbdevMediumraw.DecodeFromStep | ui/fbdev.c:496-503 | decoding as written from byte i is the form at i followed by the decode from the next form, and fails exactly where one of them does |
| FbdevMediumraw.HandleFromAgrees | ui/fbdev.c:496-554 | the key-by-key loop handles exactly the decoded keys when the decode stays inside the buffer; it faults only where the decode faults and without having exited; where the decode faults, the loop exits on an earlier key or faults at the same index |
| FbdevMediumraw.ReadAsWrittenAgrees | ui/fbdev.c:480-560 | a read as written that decodes inside the buffer runs the handler over the decoded keys with no fault; a faulting read has not exited and faults where the whole decode does |
| FbdevMediumraw.EscapeReadDecodes | ui/fbdev.c:499-503 | decoding the read 1d 38 01, 28 bytes 02, 00 in one go reads buf[32] |
| FbdevMediumraw.CtrlAltEscAsWritten | ui/fbdev.c:504-528 | with no key held, Ctrl and Alt presses are recorded without exiting and a following Esc press exits |
| FbdevMediumraw.EscapeBeforeFault | ui/fbdev.c:496-528 | any read starting 1d 38 01 with no key held exits at its third byte with no fault, so the read above exits before it could read buf[32] |
| FbdevMediumraw.EncodeWhole | ui/fbdev.c:496-503 | the console's encoding never ends in a cut-short 3-byte form |
| FbdevMediumraw.AsWrittenAgrees | ui/fbdev.c:496-503 | when the bytes read are whole forms, the loop as written decodes exactly as the bounded decoder |
| FbdevMediumraw.EncodedReadAgrees | ui/fbdev.c:496-503 | a read of encoded keys decodes to those keys as written |
| FbdevMediumraw.StaleBytesAsWritten | ui/fbdev.c:499-503 | a one-byte read of 0x00 takes its key from bytes that were not read: Esc or 1 depending on stale contents |
| FbdevMediumraw.PastBufferAsWritten | ui/fbdev.c:499-503 | a full read ending in a zero keycode field reads buf[32], past the buffer |
| FbdevMediumraw.IgnoredKeys | ui/fbdev.c:504-553 | corrected: keycodes past KEY_MAX and releases of keys that are not down change nothing; any other key that is not a hot key records its state, does not exit, and sends its scancode to a graphic console or, on a text console, the keysym of a press under the Shift state that includes it |
| FbdevMediumraw.ModifiersKept | ui/fbdev.c:519-521 | a key that is not Ctrl, Alt or Shift leaves the modifiers as they were |
| FbdevMediumraw.GuestSeesKey | ui/fbdev.c:547-549 | on a graphic console, a mapped key that is not intercepted reaches the guest as that key and direction |
| FbdevMediumraw.TextConsoleTypes | ui/fbdev.c:550-553 | corrected table: on a text console a US-row key press types its character, shifted iff Shift is held; a release types nothing |
| FbdevMediumraw.ApostropheSwappedAsWritten | ui/fbdev.c:373 | as written, the apostrophe key pressed on a text console types `"` without Shift and `'` with it; the corrected handler types the reverse |
| FbdevMediumraw.ApostropheReadAsWritten | ui/fbdev.c:480-553 | as written, a one-byte read of 0x28 on a text console with no key held succeeds and types `"` |
| FbdevMediumraw.ScaleToggle | ui/fbdev.c:529-534 | Ctrl+Alt+S flips scaling, bumps the resize and redraw counters and sends nothing; pressing it twice restores the scaling |
| FbdevMediumraw.VtSwitch | ui/fbdev.c:535-539 | Ctrl+Alt+Fn activates VT n, marks the key up, and its release is dropped |
| FbdevMediumraw.ConsoleSwitch | ui/fbdev.c:540-544 | corrected: Ctrl+Alt+n selects console n-1, then every key including KEY_MAX is up and only releases follow |
| FbdevMediumraw.EmergencyEscape | ui/fbdev.c:523-528 | Ctrl+Alt+Esc exits |
| FbdevMediumraw.KeyMaxReachable | ui/fbdev.c:499-515 | bytes 00 05 7f decode to KEY_MAX, and pressing it marks key_down[KEY_MAX] |
| FbdevMediumraw.KeyMaxStuckAsWritten | ui/fbdev.c:470 | as written, a console switch leaves key_down[KEY_MAX] down; with the loop bound corrected it is cleared |
| FbdevMediumraw.RunStep | ui/fbdev.c:496-554 | corrected: the loop handles one key, then the rest, unless that key exits |
| FbdevMediumraw.NextKey | ui/fbdev.c:497-503 | one step of the decode: the next key and where the following form starts, or the end of whole forms |
| FbdevMediumraw.ReadMediumrawLoop | ui/fbdev.c:480-560 | corrected: the imperative loop over the bytes read ends in the state, events and exit of the bounded decoder followed by the handler; rc <= 0 exits |

## Left out

- Memory API: `memory_region_find`, the dirty bitmap, `cpu_physical_memory_map` and the unmaps are folded into `Framebuffer.Memory`. It records whether the section is whole RAM, whether logging is on, the mapped length and which rows are dirty. Reference counting is not modelled.
- Framebuffer.UpdateDisplay: the first/last-row postconditions are stated for a non-negative start row only. With a negative *first_row the C code indexes before the surface, so no promise is made there.
- Pixel output: `rgb_to_pixel32` is left abstract as the `RgbToPixel32(r, g, b)` value; the host surface format is not modelled.
- Pixman: the line buffer creation, palette attachment and `qemu_pixman_linebuf_copy` are not modelled. Only the row each swapped line is copied to is recorded.
- Framebuffer.FramebufferSwap: the stride is the line buffer's length, a parameter. `qemu_pixman_linebuf_create` is not part of this model, so whether a surface's last row is shorter than the stride (framebuffer.c:178, 221, 227) is not decided here. A short row is an `Err(ReadPastRow)` value; the read past the guest mapping in the C code is not modelled further.
- Invalid swap mode: the `g_assert_not_reached` branch of `framebuffer_swap` cannot arise, because `SwapMode` has only the four modes.
- Option parsing: `qemu_opt_get_number` and `parse_uint_full` are modelled as strict decimal parsing of an option string. Leading whitespace, signs and other bases are not accepted.
- AudioLegacy.BytesToUsecs: the corrected conversion, dividing by the sample size, stands beside the code and is not used by AudioLegacy.TransformVal, whose BYTES cases run bytes_to_usecs as written, as the source does. It still reads the format option as a bit count with toull, as the source does. So a format stored by FMT makes it fail (`FormatNameIsNoBitCount`).
- AudioLegacy.LegacyOpt: whether `qemu_opts_create` accepts drv as a new audiodev id is the parameter `created`. The rules it applies (a well-formed id, not already in use) are not part of this model. `qemu_opt_set` of "driver" is taken to succeed.
- `audio_handle_legacy_opts`: the loop over `drvtab` and the `QEMU_AUDIO_DRV` lookup are not modelled. `LegacyOpt` covers one driver.
- `audio_legacy_help` and `legacy_help_each` only print, and are left out.
- Diagnostics: `dolog`, `fprintf`, `perror`, the trace points and the `keynames` table produce only diagnostics, and are left out.
- AudioLegacy.FramesToUsecs, AudioLegacy.SamplesToUsecs and AudioLegacy.TransformVal: `Err(DivisionByZero)` stands for a C division by zero (audio_legacy.c:74, 81, 139), which traps rather than calling `exit(1)`; the trap is not modelled.
- Framebuffer.UpdateDisplay and Framebuffer.UpdateDisplaySwapPixman: `src_len = src_width * rows` is an `int` product in C (framebuffer.c:54, 192) and is computed here on unbounded integers; its overflow is not modelled.
- `exit(1)` in the audio code becomes an `Err` value. In the keyboard handler it becomes the `exit` flag of a `Step`.
- The calls `kbd_put_keycode`, `kbd_put_keysym`, `fbdev_activate_vt` and `console_select` become `Event` values. Their effects outside this file are not modelled.
- `console_select` is modelled through `Consoles.count`: an index past the last console leaves the active console unchanged. Whether each console is graphic is a parameter.
- `read()`: its result `rc` and the buffer contents are parameters. The buffer holds bytes (`AllBytes`), as the `uint8_t` array does. An error and end of file are both `rc <= 0`.
- `use_scale` is a boolean.
- `resize_screen` and `redraw_screen` are unbounded integers; C `int` overflow is not modelled.
- The GRAVE key (` and ~) is not part of the modelled US rows, because `keysym_map_en_us` has no entry for it.
- The terminal setup, VT switching, framebuffer mapping and display refresh of `ui/fbdev.c` are outside the keyboard core and are not modelled.
- Bytes are natural numbers below 256 rather than `bv8`. `FbdevKeymaps.MaskOps` ties the arithmetic to the bit operations.
- Pl110Convert.Pixel565, Pl110Convert.Pixel555, Pl110Convert.Pixel444 and Pl110Convert.Pixel32: each contract bounds the channels only. The bit layout is stated by Pl110Properties.Layout565, Layout555, Layout444 and Layout32.
- Pl110Convert.IndexedWord and Pl110Convert.LinePixels: each contract gives the pixel count and where the pixels come from, not their order. The order is stated by Pl110Properties.PixelOrderMirror, IndexedFromGuestBytes and Pl110Convert.LinePixelsAt.
- Pl110Table.Table: the contract gives the length only. The entries are stated by Pl110Table.TableLayout.
- FbdevKeymaps.SendScancode and FbdevKeymaps.SendKeysymIn: each contract bounds the number of events. What the events mean is stated by FbdevKeymaps.ScancodeRoundTrip and by the row lemmas.
- FbdevMediumraw.Decode, FbdevMediumraw.EncodeKey and FbdevMediumraw.LongKeycode: each contract gives a bound. The decoding is stated by FbdevMediumraw.DecodeEncode and FbdevMediumraw.NextKey.
- FbdevMediumraw.ResetFrom: the contract gives the length only. The effect is stated by FbdevMediumraw.ResetFromEffect.
- FbdevMediumraw.HandleKey, FbdevMediumraw.Run, FbdevMediumraw.ReadMediumraw, FbdevMediumraw.HandleFromAsWritten and FbdevMediumraw.ReadMediumrawAsWritten: each contract states only that key_down keeps KEY_CNT flags. The behaviour is stated by the lemmas from IgnoredKeys to KeyMaxStuckAsWritten, by ReadMediumrawLoop, and by HandleFromAgrees, ReadAsWrittenAgrees and EscapeBeforeFault.
- FbdevMediumraw.FormAtAsWritten: the contract bounds the next index only. What the form decodes to is stated through DecodeFromAsWritten by HandleFromAgrees.
- FbdevMediumraw.ReadMediumrawAsWritten: a read past the 32-byte buffer stops the loop with a `ReadPastBuffer` fault. The keys before the faulting form have been handled by then, and their events are kept. What the C code does with the bytes it finds past the buffer is undefined behaviour and is not modelled further.

## Findings

| source | as written | input that shows it | evidently intended | confidence | as-written member | corrected member |
|---|---|---|---|---|---|---|
| ui/fbdev.c:373 | `[KEY_APOSTROPHE] = { .normal = '"', .shifted = '\'' }` | pressing the apostrophe key without shift on a text console types `"` | unshifted `'`, shifted `"`, as on a US keyboard | high, not executed | FbdevKeymaps.ApostropheAsWritten | FbdevKeymaps.HomeRow |
| audio/audio_legacy.c:88-89 | `samples_to_usecs(opts, bytes * bytes_per_sample, in)` | 176400 bytes (one second of 16-bit stereo at 44100 Hz) become 4000000 µs | divide the byte count by the sample size: 1000000 µs | high, not executed | AudioLegacy.OneSecondOfBytes | AudioLegacy.BytesToUsecsFrames |
| ui/fbdev.c:470 | `for (keycode = 0; keycode < KEY_MAX; keycode++)` | bytes 00 05 7f press key 767 (KEY_MAX), which line 504 accepts; Ctrl+Alt+1 then leaves key_down[767] set | reset every key_down slot, `<= KEY_MAX` or `< KEY_CNT` | medium, not executed | FbdevMediumraw.KeyMaxStuckAsWritten | FbdevMediumraw.ConsoleSwitch |
| ui/fbdev.c:499-503 | `buf[i+1]` and `buf[i+2]` read without checking `i + 2 < rc` | rc = 1 with buf[0] = 0x00 takes the key from unread bytes; a 32-byte read whose last byte is 0x00 reads buf[32] | stop at an incomplete 3-byte form at the end of the bytes read | medium, not executed | FbdevMediumraw.PastBufferAsWritten | FbdevMediumraw.ReadMediumrawLoop |
