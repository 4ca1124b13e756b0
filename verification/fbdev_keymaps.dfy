/** The fbdev console's keyboard tables and the two ways a key reaches
    QEMU: as a PC scancode for the emulated keyboard (`send_scancode`), or
    as a keysym for a text console (`send_keysym`).  Key numbers are the
    Linux input layer's KEY_* codes; ui/fbdev.c takes them, the SCANCODE_*
    masks and the QEMU_KEY_* codes from headers that are not part of this
    model, so their standard values are written out here. */
module FbdevKeymaps {
  import opened Wrappers

  // Linux input-layer key codes.
  const KeyEsc: nat := 1
  const Key1: nat := 2
  const Key9: nat := 10
  const Key0: nat := 11
  const KeyMinus: nat := 12
  const KeyEqual: nat := 13
  const KeyBackspace: nat := 14
  const KeyTab: nat := 15
  const KeyQ: nat := 16
  const KeyLeftBrace: nat := 26
  const KeyRightBrace: nat := 27
  const KeyEnter: nat := 28
  const KeyLeftCtrl: nat := 29
  const KeyA: nat := 30
  const KeyS: nat := 31
  const KeySemicolon: nat := 39
  const KeyApostrophe: nat := 40
  const KeyGrave: nat := 41
  const KeyLeftShift: nat := 42
  const KeyBackslash: nat := 43
  const KeyZ: nat := 44
  const KeySlash: nat := 53
  const KeyRightShift: nat := 54
  const KeyLeftAlt: nat := 56
  const KeySpace: nat := 57
  const KeyF1: nat := 59
  const KeyF10: nat := 68
  const KeyRightCtrl: nat := 97
  const KeyRightAlt: nat := 100
  const KeyUp: nat := 103
  const KeyLeft: nat := 105
  const KeyRight: nat := 106
  const KeyDown: nat := 108
  /** KEY_MAX: the largest key code; key_down has KEY_CNT = KEY_MAX + 1 slots. */
  const KeyMax: nat := 0x2ff
  const KeyCnt: nat := KeyMax + 1

  // PC scancode masks; both the grey flag and the release flag are the
  // top bit.
  const ScancodeGrey: bv8 := 0x80
  const ScancodeUp: bv8 := 0x80
  const ScancodeKeycodeMask: bv8 := 0x7f
  const ScancodeEmul0: nat := 0xe0

  /** A byte is a number below 0x100; the masks act on it arithmetically. */
  predicate IsByte(b: nat) {
    b < 0x100
  }

  /** b & SCANCODE_GREY != 0, equally b & SCANCODE_UP != 0. */
  predicate TopBit(b: nat) {
    b >= 0x80
  }

  /** b | SCANCODE_UP. */
  function WithTopBit(b: nat): nat {
    if b >= 0x80 then b else b + 0x80
  }

  /** b & SCANCODE_KEYCODEMASK. */
  function LowBits(b: nat): nat {
    b % 0x80
  }

  /** The arithmetic forms above are the C bit operations on every byte. */
  lemma MaskOps(b: bv8)
    ensures (b & ScancodeGrey != 0) == TopBit(b as nat) && (b & ScancodeUp != 0) == TopBit(b as nat)
    ensures (b | ScancodeUp) as nat == WithTopBit(b as nat)
    ensures (b & ScancodeKeycodeMask) as nat == LowBits(b as nat)
  {
  }

  // QEMU console keysyms that are not characters.
  const QemuKeyBackspace: int := 0x7f
  const QemuKeyUp: int := 0xe100 + 'A' as int
  const QemuKeyDown: int := 0xe100 + 'B' as int
  const QemuKeyRight: int := 0xe100 + 'C' as int
  const QemuKeyLeft: int := 0xe100 + 'D' as int

  /** What the keyboard code hands to the rest of QEMU, in order. */
  datatype Event =
    | PutKeycode(code: nat)  // a byte
    | PutKeysym(sym: int)
    | ActivateVt(vt: nat)
    | SelectConsole(index: nat)

  /** scancode_map: PC set-1 scancodes indexed by key code, grey
      (E0-prefixed) ones with the top bit set; 0 for a key the map leaves
      out.  The groups follow the source. */
  function Scancode(keycode: nat): nat {
    match keycode
    case 1 => 0x01 case 2 => 0x02 case 3 => 0x03 case 4 => 0x04 case 5 => 0x05 case 6 => 0x06
    case 7 => 0x07 case 8 => 0x08 case 9 => 0x09 case 10 => 0x0a case 11 => 0x0b case 12 => 0x0c
    case 13 => 0x0d case 14 => 0x0e

    case 15 => 0x0f case 16 => 0x10 case 17 => 0x11 case 18 => 0x12 case 19 => 0x13 case 20 => 0x14
    case 21 => 0x15 case 22 => 0x16 case 23 => 0x17 case 24 => 0x18 case 25 => 0x19 case 26 => 0x1a
    case 27 => 0x1b case 28 => 0x1c

    case 30 => 0x1e case 31 => 0x1f case 32 => 0x20 case 33 => 0x21 case 34 => 0x22 case 35 => 0x23
    case 36 => 0x24 case 37 => 0x25 case 38 => 0x26 case 39 => 0x27 case 40 => 0x28 case 41 => 0x29
    case 42 => 0x2a case 43 => 0x2b

    case 44 => 0x2c case 45 => 0x2d case 46 => 0x2e case 47 => 0x2f case 48 => 0x30 case 49 => 0x31
    case 50 => 0x32 case 51 => 0x33 case 52 => 0x34 case 53 => 0x35 case 54 => 0x36 case 57 => 0x39

    case 59 => 0x3b case 60 => 0x3c case 61 => 0x3d case 62 => 0x3e case 63 => 0x3f case 64 => 0x40
    case 65 => 0x41 case 66 => 0x42 case 67 => 0x43 case 68 => 0x44 case 87 => 0x57 case 88 => 0x58

    case 99 => 0xb7 case 70 => 0x46 case 58 => 0x3a case 86 => 0x56

    case 29 => 0x1d case 125 => 0xdb case 56 => 0x38 case 100 => 0xb8 case 126 => 0xdc
    case 97 => 0x9d case 127 => 0xdd

    case 110 => 0xd2 case 111 => 0xd3 case 102 => 0xc7 case 107 => 0xcf case 104 => 0xc9
    case 109 => 0xd1

    case 103 => 0xc8 case 105 => 0xcb case 106 => 0xcd case 108 => 0xd0

    case 69 => 0x45 case 98 => 0xb5 case 55 => 0x37 case 71 => 0x47 case 72 => 0x48 case 73 => 0x49
    case 74 => 0x4a case 75 => 0x4b case 76 => 0x4c case 77 => 0x4d case 78 => 0x4e case 79 => 0x4f
    case 80 => 0x50 case 81 => 0x51 case 82 => 0x52 case 83 => 0x53 case 96 => 0x9c
    case _ => 0
  }

  /** send_scancode: nothing for an unmapped key; otherwise an EMUL0
      prefix for a grey key, then the scancode with the release bit set
      for a release and cleared for a press. */
  function SendScancode(keycode: nat, up: bool): (evs: seq<Event>)
    ensures |evs| <= 2
  {
    var scancode := Scancode(keycode);
    if scancode == 0 then []
    else
      (if TopBit(scancode) then [PutKeycode(ScancodeEmul0)] else [])
      + [PutKeycode(if up then WithTopBit(scancode) else LowBits(scancode))]
  }

  /** The keys scancode_map covers: every key up to the keypad's dot, the
      102nd key, F11 and F12, and eighteen grey keys (no PAUSE). */
  predicate Mapped(keycode: nat) {
    || 1 <= keycode <= 83
    || 86 <= keycode <= 88
    || 96 <= keycode <= 100
    || 102 <= keycode <= 111
    || 125 <= keycode <= 127
  }

  lemma ScancodeKeys(keycode: nat)
    ensures Scancode(keycode) != 0 <==> Mapped(keycode)
  {
    if keycode < 89 {
      ScancodeKeysLow(keycode);
    } else {
      ScancodeKeysHigh(keycode);
    }
  }

  lemma ScancodeKeysLow(keycode: nat)
    requires keycode < 89
    ensures Scancode(keycode) != 0 <==> Mapped(keycode)
  {
    if keycode < 45 {
      ScancodeKeysBelow45(keycode);
    } else {
      ScancodeKeysFrom45(keycode);
    }
  }

  lemma ScancodeKeysBelow45(keycode: nat)
    requires keycode < 45
    ensures Scancode(keycode) == keycode
  {
  }

  lemma ScancodeKeysFrom45(keycode: nat)
    requires 45 <= keycode < 89
    ensures Scancode(keycode) == if keycode == 84 || keycode == 85 then 0 else keycode
  {
  }

  lemma ScancodeKeysHigh(keycode: nat)
    requires keycode >= 89
    ensures Scancode(keycode) != 0 <==> Mapped(keycode)
  {
  }

  lemma ScancodeBelow89(keycode: nat)
    requires keycode < 89
    ensures Scancode(keycode) != 0 ==> Scancode(keycode) == keycode
  {
  }

  lemma ScancodeFrom89(keycode: nat)
    requires keycode >= 89
    ensures Scancode(keycode) != 0 ==> 0x80 <= Scancode(keycode) < 0x100
  {
  }

  /** Every scancode fits in a byte. */
  lemma ScancodeByte(keycode: nat)
    ensures Scancode(keycode) < 0x100
  {
    if keycode < 89 {
      ScancodeBelow89(keycode);
    } else {
      ScancodeFrom89(keycode);
    }
  }

  /** The map's layout: it covers exactly the Mapped keys; below 89 (the
      keys a PC keyboard reports without a prefix) a key's scancode is its
      own key code, and every key above is grey (top bit set). */
  lemma ScancodeLayout(keycode: nat)
    ensures Scancode(keycode) != 0 <==> Mapped(keycode)
    ensures Mapped(keycode) && keycode < 89 ==> Scancode(keycode) == keycode
    ensures Mapped(keycode) && keycode >= 89 ==> 0x80 <= Scancode(keycode) < 0x100
  {
    ScancodeKeys(keycode);
    if keycode < 89 {
      ScancodeBelow89(keycode);
    } else {
      ScancodeFrom89(keycode);
    }
  }

  /** The grey scancodes back to their keys; 0 for any other byte. */
  function GreyKey(scancode: nat): nat {
    match scancode
    case 0x9c => 96 case 0x9d => 97 case 0xb5 => 98 case 0xb7 => 99 case 0xb8 => 100
    case 0xc7 => 102 case 0xc8 => 103 case 0xc9 => 104 case 0xcb => 105 case 0xcd => 106
    case 0xcf => 107 case 0xd0 => 108 case 0xd1 => 109 case 0xd2 => 110 case 0xd3 => 111
    case 0xdb => 125 case 0xdc => 126 case 0xdd => 127
    case _ => 0
  }

  lemma GreyInverse(keycode: nat)
    requires keycode >= 89
    ensures Scancode(keycode) != 0 ==> GreyKey(Scancode(keycode)) == keycode
  {
  }

  /** A PC keyboard controller's reading of one key's bytes: a scancode
      without prefix names the key of that number, one after EMUL0 a grey
      key; the top bit is the release flag. */
  function DecodeScancode(evs: seq<Event>): Option<(nat, bool)> {
    if |evs| == 1 && evs[0].PutKeycode? && evs[0].code != ScancodeEmul0 && IsByte(evs[0].code) then
      var b := evs[0].code;
      var key := LowBits(b);
      if key < 89 && Mapped(key) then Some((key, TopBit(b))) else None
    else if |evs| == 2 && evs[0] == PutKeycode(ScancodeEmul0) && evs[1].PutKeycode? && IsByte(evs[1].code) then
      var b := evs[1].code;
      var key := GreyKey(WithTopBit(b));
      if key != 0 then Some((key, TopBit(b))) else None
    else None
  }

  /** What send_scancode emits for a mapped key reads back as that key and
      direction; an unmapped key emits nothing. */
  lemma ScancodeRoundTrip(keycode: nat, up: bool)
    ensures !Mapped(keycode) ==> SendScancode(keycode, up) == []
    ensures Mapped(keycode) ==> DecodeScancode(SendScancode(keycode, up)) == Some((keycode, up))
  {
    ScancodeKeys(keycode);
    if Mapped(keycode) {
      if keycode < 89 {
        RoundTripPlain(keycode, up);
      } else {
        RoundTripGrey(keycode, up);
      }
    }
  }

  lemma RoundTripPlain(keycode: nat, up: bool)
    requires keycode < 89 && Mapped(keycode)
    ensures DecodeScancode(SendScancode(keycode, up)) == Some((keycode, up))
  {
    ScancodeKeys(keycode);
    ScancodeBelow89(keycode);
    assert SendScancode(keycode, up) == [PutKeycode(if up then keycode + 0x80 else keycode)];
  }

  lemma RoundTripGrey(keycode: nat, up: bool)
    requires keycode >= 89 && Mapped(keycode)
    ensures DecodeScancode(SendScancode(keycode, up)) == Some((keycode, up))
  {
    ScancodeKeys(keycode);
    ScancodeFrom89(keycode);
    GreyInverse(keycode);
  }

  /** One slot of keysym_map_en_us; 0 means no symbol. */
  datatype Keysym = Keysym(normal: int, shifted: int)

  function Chars(normal: char, shifted: char): Keysym {
    Keysym(normal as int, shifted as int)
  }

  function Plain(normal: int): Keysym {
    Keysym(normal, 0)
  }

  /** keysym_map_en_us as written, with the apostrophe key's two symbols
      the wrong way round; an absent slot is zero. */
  function KeysymAsWritten(keycode: nat): Keysym {
    match keycode
    case 30 => Chars('a', 'A') case 48 => Chars('b', 'B') case 46 => Chars('c', 'C')
    case 32 => Chars('d', 'D') case 18 => Chars('e', 'E') case 33 => Chars('f', 'F')
    case 34 => Chars('g', 'G') case 35 => Chars('h', 'H') case 23 => Chars('i', 'I')
    case 36 => Chars('j', 'J') case 37 => Chars('k', 'K') case 38 => Chars('l', 'L')
    case 50 => Chars('m', 'M') case 49 => Chars('n', 'N') case 24 => Chars('o', 'O')
    case 25 => Chars('p', 'P') case 16 => Chars('q', 'Q') case 19 => Chars('r', 'R')
    case 31 => Chars('s', 'S') case 20 => Chars('t', 'T') case 22 => Chars('u', 'U')
    case 47 => Chars('v', 'V') case 17 => Chars('w', 'W') case 45 => Chars('x', 'X')
    case 21 => Chars('y', 'Y') case 44 => Chars('z', 'Z')

    case 2 => Chars('1', '!') case 3 => Chars('2', '@') case 4 => Chars('3', '#')
    case 5 => Chars('4', '$') case 6 => Chars('5', '%') case 7 => Chars('6', '^')
    case 8 => Chars('7', '&') case 9 => Chars('8', '*') case 10 => Chars('9', '(')
    case 11 => Chars('0', ')')

    case 12 => Chars('-', '_') case 13 => Chars('=', '+') case 15 => Plain('\t' as int)
    case 26 => Chars('[', '{') case 27 => Chars(']', '}') case 28 => Plain('\n' as int)
    case 39 => Chars(';', ':') case 40 => Chars('"', '\'') case 43 => Chars('\\', '|')
    case 51 => Chars(',', '<') case 52 => Chars('.', '>') case 53 => Chars('/', '?')
    case 57 => Plain(' ' as int)

    case 14 => Plain(QemuKeyBackspace) case 103 => Plain(QemuKeyUp) case 108 => Plain(QemuKeyDown)
    case 105 => Plain(QemuKeyLeft) case 106 => Plain(QemuKeyRight)
    case _ => Keysym(0, 0)
  }

  /** keysym_map_en_us as a US keyboard has it: apostrophe unshifted,
      double quote shifted. */
  function KeysymUs(keycode: nat): Keysym {
    if keycode == KeyApostrophe then Chars('\'', '"') else KeysymAsWritten(keycode)
  }

  /** send_keysym over a given table: the shifted symbol when shift is held
      and there is one, else the normal symbol, else nothing. */
  function SendKeysymIn(table: nat -> Keysym, keycode: nat, shift: bool): (evs: seq<Event>)
    ensures |evs| <= 1
  {
    var e := table(keycode);
    if shift && e.shifted != 0 then [PutKeysym(e.shifted)]
    else if e.normal != 0 then [PutKeysym(e.normal)]
    else []
  }

  function SendKeysymAsWritten(keycode: nat, shift: bool): (evs: seq<Event>)
    ensures |evs| <= 1
  {
    SendKeysymIn(KeysymAsWritten, keycode, shift)
  }

  function SendKeysym(keycode: nat, shift: bool): (evs: seq<Event>)
    ensures |evs| <= 1
  {
    SendKeysymIn(KeysymUs, keycode, shift)
  }

  /** A row of the US keyboard: consecutive key codes from `first`, each
      typing normal[i] and, with shift, shifted[i]. */
  datatype Row = Row(first: nat, normal: string, shifted: string)

  /** The US layout's character rows, as the key codes number them (the
      grave key, absent from the table, is left off the home row). */
  const UsRows: seq<Row> := [
    Row(Key1, "1234567890-=", "!@#$%^&*()_+"),
    Row(KeyQ, "qwertyuiop[]", "QWERTYUIOP{}"),
    Row(KeyA, "asdfghjkl;'", "ASDFGHJKL:\""),
    Row(KeyBackslash, "\\zxcvbnm,./", "|ZXCVBNM<>?")
  ]

  /** Every key of the row types its characters: key i the row's i-th
      character without shift and its i-th shifted character with shift. */
  predicate TypesRow(table: nat -> Keysym, r: Row) {
    && |r.normal| == |r.shifted|
    && forall i :: 0 <= i < |r.normal| ==>
         && SendKeysymIn(table, r.first + i, false) == [PutKeysym(r.normal[i] as int)]
         && SendKeysymIn(table, r.first + i, true) == [PutKeysym(r.shifted[i] as int)]
  }

  /** The table holds the row's characters at keys first + lo .. first + hi. */
  predicate HoldsKeys(table: nat -> Keysym, r: Row, lo: nat, hi: nat)
    requires lo <= hi <= |r.normal| == |r.shifted|
  {
    forall i :: lo <= i < hi ==> table(r.first + i) == Chars(r.normal[i], r.shifted[i])
  }

  /** A table holding a row of non-NUL characters types that row. */
  lemma TypesHeldRow(table: nat -> Keysym, r: Row)
    requires |r.normal| == |r.shifted| && HoldsKeys(table, r, 0, |r.normal|)
    requires forall i :: 0 <= i < |r.normal| ==> r.normal[i] != 0 as char && r.shifted[i] != 0 as char
    ensures TypesRow(table, r)
  {
  }

  lemma NumberRow()
    ensures TypesRow(KeysymUs, UsRows[0])
  {
    NumberRowHeld();
    TypesHeldRow(KeysymUs, UsRows[0]);
  }

  lemma NumberRowHeld()
    ensures HoldsKeys(KeysymUs, UsRows[0], 0, 12)
  {
    var r := UsRows[0];
    assert r == Row(2, "1234567890-=", "!@#$%^&*()_+");
    forall i | 0 <= i < 12 ensures KeysymUs(2 + i) == Chars(r.normal[i], r.shifted[i]) {
      if i == 0 { assert KeysymUs(2) == Chars('1', '!'); }
      else if i == 1 { assert KeysymUs(3) == Chars('2', '@'); }
      else if i == 2 { assert KeysymUs(4) == Chars('3', '#'); }
      else if i == 3 { assert KeysymUs(5) == Chars('4', '$'); }
      else if i == 4 { assert KeysymUs(6) == Chars('5', '%'); }
      else if i == 5 { assert KeysymUs(7) == Chars('6', '^'); }
      else if i == 6 { assert KeysymUs(8) == Chars('7', '&'); }
      else if i == 7 { assert KeysymUs(9) == Chars('8', '*'); }
      else if i == 8 { assert KeysymUs(10) == Chars('9', '('); }
      else if i == 9 { assert KeysymUs(11) == Chars('0', ')'); }
      else if i == 10 { assert KeysymUs(12) == Chars('-', '_'); }
      else { assert KeysymUs(13) == Chars('=', '+'); }
    }
  }

  lemma TopRow()
    ensures TypesRow(KeysymUs, UsRows[1])
  {
    TopRowHeld();
    TypesHeldRow(KeysymUs, UsRows[1]);
  }

  lemma TopRowHeld()
    ensures HoldsKeys(KeysymUs, UsRows[1], 0, 12)
  {
    var r := UsRows[1];
    assert r == Row(16, "qwertyuiop[]", "QWERTYUIOP{}");
    forall i | 0 <= i < 12 ensures KeysymUs(16 + i) == Chars(r.normal[i], r.shifted[i]) {
      if i == 0 { assert KeysymUs(16) == Chars('q', 'Q'); }
      else if i == 1 { assert KeysymUs(17) == Chars('w', 'W'); }
      else if i == 2 { assert KeysymUs(18) == Chars('e', 'E'); }
      else if i == 3 { assert KeysymUs(19) == Chars('r', 'R'); }
      else if i == 4 { assert KeysymUs(20) == Chars('t', 'T'); }
      else if i == 5 { assert KeysymUs(21) == Chars('y', 'Y'); }
      else if i == 6 { assert KeysymUs(22) == Chars('u', 'U'); }
      else if i == 7 { assert KeysymUs(23) == Chars('i', 'I'); }
      else if i == 8 { assert KeysymUs(24) == Chars('o', 'O'); }
      else if i == 9 { assert KeysymUs(25) == Chars('p', 'P'); }
      else if i == 10 { assert KeysymUs(26) == Chars('[', '{'); }
      else { assert KeysymUs(27) == Chars(']', '}'); }
    }
  }

  lemma HomeRow()
    ensures TypesRow(KeysymUs, UsRows[2])
  {
    HomeRowHeld();
    TypesHeldRow(KeysymUs, UsRows[2]);
  }

  lemma HomeRowHeld()
    ensures HoldsKeys(KeysymUs, UsRows[2], 0, 11)
  {
    var r := UsRows[2];
    assert r == Row(30, "asdfghjkl;'", "ASDFGHJKL:\"");
    forall i | 0 <= i < 11 ensures KeysymUs(30 + i) == Chars(r.normal[i], r.shifted[i]) {
      if i == 0 { assert KeysymUs(30) == Chars('a', 'A'); }
      else if i == 1 { assert KeysymUs(31) == Chars('s', 'S'); }
      else if i == 2 { assert KeysymUs(32) == Chars('d', 'D'); }
      else if i == 3 { assert KeysymUs(33) == Chars('f', 'F'); }
      else if i == 4 { assert KeysymUs(34) == Chars('g', 'G'); }
      else if i == 5 { assert KeysymUs(35) == Chars('h', 'H'); }
      else if i == 6 { assert KeysymUs(36) == Chars('j', 'J'); }
      else if i == 7 { assert KeysymUs(37) == Chars('k', 'K'); }
      else if i == 8 { assert KeysymUs(38) == Chars('l', 'L'); }
      else if i == 9 { assert KeysymUs(39) == Chars(';', ':'); }
      else { assert KeysymUs(40) == Chars('\'', '"'); }
    }
  }

  lemma BottomRow()
    ensures TypesRow(KeysymUs, UsRows[3])
  {
    BottomRowHeld();
    TypesHeldRow(KeysymUs, UsRows[3]);
  }

  lemma BottomRowHeld()
    ensures HoldsKeys(KeysymUs, UsRows[3], 0, 11)
  {
    var r := UsRows[3];
    assert r == Row(43, "\\zxcvbnm,./", "|ZXCVBNM<>?");
    forall i | 0 <= i < 11 ensures KeysymUs(43 + i) == Chars(r.normal[i], r.shifted[i]) {
      if i == 0 { assert KeysymUs(43) == Chars('\\', '|'); }
      else if i == 1 { assert KeysymUs(44) == Chars('z', 'Z'); }
      else if i == 2 { assert KeysymUs(45) == Chars('x', 'X'); }
      else if i == 3 { assert KeysymUs(46) == Chars('c', 'C'); }
      else if i == 4 { assert KeysymUs(47) == Chars('v', 'V'); }
      else if i == 5 { assert KeysymUs(48) == Chars('b', 'B'); }
      else if i == 6 { assert KeysymUs(49) == Chars('n', 'N'); }
      else if i == 7 { assert KeysymUs(50) == Chars('m', 'M'); }
      else if i == 8 { assert KeysymUs(51) == Chars(',', '<'); }
      else if i == 9 { assert KeysymUs(52) == Chars('.', '>'); }
      else { assert KeysymUs(53) == Chars('/', '?'); }
    }
  }

  /** Every printable character of the US rows is typed by its key, with
      shift exactly when the layout needs it. */
  lemma UsLayout(r: nat)
    requires r < |UsRows|
    ensures TypesRow(KeysymUs, UsRows[r])
  {
    if r == 0 {
      NumberRow();
    } else if r == 1 {
      TopRow();
    } else if r == 2 {
      HomeRow();
    } else {
      BottomRow();
    }
  }

  /** The table as written breaks the home row: the apostrophe key types
      a double quote, and with shift an apostrophe. */
  lemma ApostropheAsWritten()
    ensures UsRows[2].first + 10 == KeyApostrophe && UsRows[2].normal[10] == '\''
    ensures SendKeysymAsWritten(KeyApostrophe, false) == [PutKeysym('"' as int)]
    ensures SendKeysymAsWritten(KeyApostrophe, true) == [PutKeysym('\'' as int)]
    ensures !TypesRow(KeysymAsWritten, UsRows[2])
  {
    assert SendKeysymIn(KeysymAsWritten, UsRows[2].first + 10, false) != [PutKeysym(UsRows[2].normal[10] as int)];
  }

  /** Shift never loses a key: every slot with a shifted symbol has a
      normal one, so a key types something with shift exactly when it does
      without. */
  lemma ShiftKeepsKeys(keycode: nat)
    ensures SendKeysym(keycode, true) == [] <==> SendKeysym(keycode, false) == []
  {
    KeysymNormal(keycode);
  }

  /** Tab, Enter and Space type their characters whether or not shift is
      held. */
  lemma WhitespaceKeys(shift: bool)
    ensures SendKeysym(KeyTab, shift) == [PutKeysym('\t' as int)]
    ensures SendKeysym(KeyEnter, shift) == [PutKeysym('\n' as int)]
    ensures SendKeysym(KeySpace, shift) == [PutKeysym(' ' as int)]
  {
    assert KeysymUs(15) == Plain('\t' as int);
    assert KeysymUs(28) == Plain('\n' as int);
    assert KeysymUs(57) == Plain(' ' as int);
  }

  /** Backspace and the arrows send QEMU's own key codes, with or without
      shift. */
  lemma EditingKeys(shift: bool)
    ensures SendKeysym(KeyBackspace, shift) == [PutKeysym(QemuKeyBackspace)]
    ensures SendKeysym(KeyUp, shift) == [PutKeysym(QemuKeyUp)]
    ensures SendKeysym(KeyDown, shift) == [PutKeysym(QemuKeyDown)]
    ensures SendKeysym(KeyLeft, shift) == [PutKeysym(QemuKeyLeft)]
    ensures SendKeysym(KeyRight, shift) == [PutKeysym(QemuKeyRight)]
  {
    assert KeysymUs(14) == Plain(QemuKeyBackspace);
    assert KeysymUs(103) == Plain(QemuKeyUp);
    assert KeysymUs(108) == Plain(QemuKeyDown);
    assert KeysymUs(105) == Plain(QemuKeyLeft);
    assert KeysymUs(106) == Plain(QemuKeyRight);
  }

  /** No slot has a shifted symbol without a normal one. */
  lemma KeysymNormal(keycode: nat)
    ensures KeysymUs(keycode).shifted != 0 ==> KeysymUs(keycode).normal != 0
  {
  }
}
