/** The fbdev console's keyboard state machine: decoding the Linux
    console's medium-raw byte stream (`read_mediumraw`), tracking which
    keys are down, the Ctrl+Alt hot keys, and `reset_keys`.  Everything the
    handler does outside its own state (switching VTs, selecting a QEMU
    console, feeding the guest keyboard or a text console) is an Event. */
module FbdevMediumraw {
  import opened Wrappers
  import opened FbdevKeymaps

  /** One key transition as the byte stream carries it. */
  datatype KeyEvent = KeyEvent(keycode: nat, up: bool)

  predicate AllBytes(data: seq<nat>) {
    forall i :: 0 <= i < |data| ==> IsByte(data[i])
  }

  /** The keycode of a 3-byte form: the low seven bits of the second byte
      shifted left by seven, or'ed with the low seven bits of the third
      (the two fields do not overlap, so the or is a sum). */
  function LongKeycode(b1: nat, b2: nat): (k: nat)
    ensures k < 0x4000
  {
    LowBits(b1) * 0x80 + LowBits(b2)
  }

  /** The medium-raw stream read within the bytes that arrived: a byte
      with a nonzero keycode field is a key by itself; a zero field starts
      a 3-byte form; a form cut short by the end of the data is dropped.
      The top bit of the first byte is the release flag. */
  function Decode(data: seq<nat>): (evs: seq<KeyEvent>)
    ensures |evs| <= |data|
    decreases |data|
  {
    if |data| == 0 then []
    else
      var b := data[0];
      if LowBits(b) != 0 then [KeyEvent(LowBits(b), TopBit(b))] + Decode(data[1..])
      else if |data| < 3 then []
      else [KeyEvent(LongKeycode(data[1], data[2]), TopBit(b))] + Decode(data[3..])
  }

  /** The Linux console's medium-raw encoding of one key: a key code below
      0x80 in one byte with the release flag on top; a larger one as a
      zero byte carrying the flag, then its high and low seven bits, each
      with the top bit set. */
  function EncodeKey(e: KeyEvent): (data: seq<nat>)
    requires 0 < e.keycode < 0x4000
    ensures AllBytes(data)
  {
    var flag := if e.up then 0x80 else 0;
    if e.keycode < 0x80 then [e.keycode + flag]
    else [flag, 0x80 + e.keycode / 0x80, 0x80 + e.keycode % 0x80]
  }

  predicate Encodable(evs: seq<KeyEvent>) {
    forall i :: 0 <= i < |evs| ==> 0 < evs[i].keycode < 0x4000
  }

  function Encode(evs: seq<KeyEvent>): (data: seq<nat>)
    requires Encodable(evs)
    ensures AllBytes(data)
  {
    if evs == [] then [] else EncodeKey(evs[0]) + Encode(evs[1..])
  }

  /** One key's encoding decodes to that key, whatever follows it. */
  lemma DecodeKey(e: KeyEvent, rest: seq<nat>)
    requires 0 < e.keycode < 0x4000
    ensures Decode(EncodeKey(e) + rest) == [e] + Decode(rest)
  {
    var data := EncodeKey(e) + rest;
    if e.keycode < 0x80 {
      assert data[1..] == rest;
    } else {
      assert data[3..] == rest;
      LongFormFields(e.keycode);
    }
  }

  /** The high and low seven bits, each with the top bit set, give the
      key code back. */
  lemma LongFormFields(keycode: nat)
    requires 0x80 <= keycode < 0x4000
    ensures LowBits(0x80 + keycode / 0x80) == keycode / 0x80 && LowBits(0x80 + keycode % 0x80) == keycode % 0x80
    ensures LongKeycode(0x80 + keycode / 0x80, 0x80 + keycode % 0x80) == keycode
    ensures LowBits(0) == 0
  {
  }

  /** Decoding what the console encodes gives back every key, in order. */
  lemma {:induction false} DecodeEncode(evs: seq<KeyEvent>)
    requires Encodable(evs)
    ensures Decode(Encode(evs)) == evs
  {
    if evs != [] {
      DecodeKey(evs[0], Encode(evs[1..]));
      DecodeEncode(evs[1..]);
    }
  }

  /** The handler's state: key_down (one flag per key code 0..KEY_MAX),
      use_scale, the resize and redraw counters, and the active QEMU
      console. */
  datatype KbdState = KbdState(keyDown: seq<bool>, useScale: bool, resizeScreen: int, redrawScreen: int, console: nat)

  predicate Valid(s: KbdState) {
    |s.keyDown| == KeyCnt
  }

  /** The QEMU consoles: how many there are and which show a graphic
      display (qemu_console_is_graphic of the active one decides between
      scancodes and keysyms). */
  datatype Consoles = Consoles(count: nat, graphic: nat -> bool)

  /** console_select: the console of that index becomes active if it
      exists. */
  function Select(c: Consoles, active: nat, index: nat): nat {
    if index < c.count then index else active
  }

  /** What one key does: the new state, what it sends, and whether the
      program exits. */
  datatype Step = Step(state: KbdState, events: seq<Event>, exit: bool)

  /** reset_keys from key code k up to (not including) limit: every key
      that is down is released (sent to the guest when the console is
      graphic) and marked up. */
  function ResetFrom(down: seq<bool>, graphic: bool, k: nat, limit: nat): (r: (seq<bool>, seq<Event>))
    requires k <= limit <= |down|
    ensures |r.0| == |down|
    decreases limit - k
  {
    if k == limit then (down, [])
    else
      var sent := if down[k] && graphic then SendScancode(k, true) else [];
      var rest := ResetFrom(down[k := false], graphic, k + 1, limit);
      (rest.0, sent + rest.1)
  }

  /** A release as the guest keyboard sees it: bytes with the top bit set,
      or the EMUL0 prefix. */
  predicate ReleaseBytes(evs: seq<Event>) {
    forall i :: 0 <= i < |evs| ==> evs[i].PutKeycode? && (evs[i].code == ScancodeEmul0 || TopBit(evs[i].code))
  }

  lemma ReleaseSendsRelease(keycode: nat)
    ensures ReleaseBytes(SendScancode(keycode, true))
  {
  }

  /** ResetFrom marks exactly the keys in [k, limit) up, leaves the rest
      alone, sends only releases, and sends nothing when the console is
      not graphic or no key in the range is down. */
  lemma {:induction false} ResetFromEffect(down: seq<bool>, graphic: bool, k: nat, limit: nat)
    requires k <= limit <= |down|
    ensures var r := ResetFrom(down, graphic, k, limit);
      && (forall i :: 0 <= i < |down| ==> r.0[i] == (if k <= i < limit then false else down[i]))
      && ReleaseBytes(r.1)
      && ((!graphic || forall i :: k <= i < limit ==> !down[i]) ==> r.1 == [])
    decreases limit - k
  {
    if k < limit {
      ResetFromEffect(down[k := false], graphic, k + 1, limit);
      ReleaseSendsRelease(k);
    }
  }

  /** Ctrl, Alt and Shift are each the left or the right key. */
  predicate AltDown(d: seq<bool>)
    requires |d| == KeyCnt
  {
    d[KeyLeftAlt] || d[KeyRightAlt]
  }

  predicate CtrlDown(d: seq<bool>)
    requires |d| == KeyCnt
  {
    d[KeyLeftCtrl] || d[KeyRightCtrl]
  }

  predicate ShiftDown(d: seq<bool>)
    requires |d| == KeyCnt
  {
    d[KeyLeftShift] || d[KeyRightShift]
  }

  /** The body of read_mediumraw's loop for one key, with reset_keys
      walking key codes below resetLimit and keysyms taken from table. */
  function HandleKeyWith(resetLimit: nat, table: nat -> Keysym, s: KbdState, c: Consoles, e: KeyEvent): (st: Step)
    requires Valid(s) && resetLimit <= KeyCnt
    ensures Valid(st.state)
  {
    var k, up := e.keycode, e.up;
    if k > KeyMax then Step(s, [], false)
    else if up && !s.keyDown[k] then Step(s, [], false)
    else
      var d := s.keyDown[k := !up];
      var s1 := s.(keyDown := d);
      var hot := CtrlDown(d) && AltDown(d) && !up;
      if hot && k == KeyEsc then Step(s1, [], true)
      else if hot && k == KeyS then
        Step(s1.(useScale := !s.useScale, resizeScreen := s.resizeScreen + 1, redrawScreen := s.redrawScreen + 1), [], false)
      else if hot && KeyF1 <= k <= KeyF10 then
        Step(s1.(keyDown := d[k := false]), [ActivateVt(k + 1 - KeyF1)], false)
      else if hot && Key1 <= k <= Key9 then
        var active := Select(c, s.console, k - Key1);
        var reset := ResetFrom(d, c.graphic(active), 0, resetLimit);
        Step(s1.(keyDown := reset.0, console := active), [SelectConsole(k - Key1)] + reset.1, false)
      else if c.graphic(s.console) then Step(s1, SendScancode(k, up), false)
      else if !up then Step(s1, SendKeysymIn(table, k, ShiftDown(d)), false)
      else Step(s1, [], false)
  }

  /** The handler as written: reset_keys stops below KEY_MAX and the
      keysym table has the apostrophe key's symbols swapped. */
  function HandleKeyAsWritten(s: KbdState, c: Consoles, e: KeyEvent): (st: Step)
    requires Valid(s)
    ensures Valid(st.state)
  {
    HandleKeyWith(KeyMax, KeysymAsWritten, s, c, e)
  }

  /** The handler with reset_keys covering every key code and the US
      keysym table. */
  function HandleKey(s: KbdState, c: Consoles, e: KeyEvent): (st: Step)
    requires Valid(s)
    ensures Valid(st.state)
  {
    HandleKeyWith(KeyCnt, KeysymUs, s, c, e)
  }

  /** Prefix what was already sent to a later step. */
  function Then(sent: seq<Event>, st: Step): Step {
    st.(events := sent + st.events)
  }

  /** The keys in order, stopping at an exit. */
  function Run(s: KbdState, c: Consoles, evs: seq<KeyEvent>): (st: Step)
    requires Valid(s)
    ensures Valid(st.state)
    decreases |evs|
  {
    if evs == [] then Step(s, [], false)
    else
      var first := HandleKey(s, c, evs[0]);
      if first.exit then first else Then(first.events, Run(first.state, c, evs[1..]))
  }

  /** Run with the handler as written. */
  function RunAsWritten(s: KbdState, c: Consoles, evs: seq<KeyEvent>): (st: Step)
    requires Valid(s)
    ensures Valid(st.state)
    decreases |evs|
  {
    if evs == [] then Step(s, [], false)
    else
      var first := HandleKeyAsWritten(s, c, evs[0]);
      if first.exit then first else Then(first.events, RunAsWritten(first.state, c, evs[1..]))
  }

  /** read_mediumraw for the first rc bytes of the buffer: an error or end
      of file (rc <= 0) exits; otherwise every complete key is handled. */
  function ReadMediumraw(s: KbdState, c: Consoles, buf: seq<nat>, rc: int): (st: Step)
    requires Valid(s) && AllBytes(buf) && rc <= |buf|
    ensures Valid(st.state)
  {
    if rc <= 0 then Step(s, [], true) else Run(s, c, Decode(buf[..rc]))
  }

  /** The size of read_mediumraw's buffer. */
  const BufSize: nat := 32

  /** Reading buf[index] with index past the end of the buffer. */
  datatype ReadFault = ReadPastBuffer(index: nat)

  /** The decode loop as written, from byte i: a zero keycode field reads
      the next two bytes of the buffer whether or not they were among the
      rc bytes read, and past the buffer's end when it starts at one of
      its last two bytes. */
  function DecodeFromAsWritten(buf: seq<nat>, rc: nat, i: nat): Result<seq<KeyEvent>, ReadFault>
    requires rc <= |buf|
    decreases rc - i
  {
    if i >= rc then Ok([])
    else
      var b := buf[i];
      if LowBits(b) != 0 then
        var rest :- DecodeFromAsWritten(buf, rc, i + 1);
        Ok([KeyEvent(LowBits(b), TopBit(b))] + rest)
      else if i + 1 >= |buf| then Err(ReadPastBuffer(i + 1))
      else if i + 2 >= |buf| then Err(ReadPastBuffer(i + 2))
      else
        var rest :- DecodeFromAsWritten(buf, rc, i + 3);
        Ok([KeyEvent(LongKeycode(buf[i + 1], buf[i + 2]), TopBit(b))] + rest)
  }

  function DecodeAsWritten(buf: seq<nat>, rc: nat): Result<seq<KeyEvent>, ReadFault>
    requires rc <= |buf|
  {
    DecodeFromAsWritten(buf, rc, 0)
  }

  /** One form as the loop as written reads it at byte i: the key and the
      byte after the form, or the first index read past the buffer. */
  function FormAtAsWritten(buf: seq<nat>, i: nat): (r: Result<(KeyEvent, nat), ReadFault>)
    requires i < |buf|
    ensures r.Ok? ==> i < r.value.1 <= |buf|
  {
    var b := buf[i];
    if LowBits(b) != 0 then Ok((KeyEvent(LowBits(b), TopBit(b)), i + 1))
    else if i + 1 >= |buf| then Err(ReadPastBuffer(i + 1))
    else if i + 2 >= |buf| then Err(ReadPastBuffer(i + 2))
    else Ok((KeyEvent(LongKeycode(buf[i + 1], buf[i + 2]), TopBit(b)), i + 3))
  }

  /** What a read leaves behind: the state, the events sent and whether it
      exited, and where it read past the buffer if it did. */
  datatype ReadOutcome = ReadOutcome(step: Step, fault: Option<ReadFault>)

  /** The loop of read_mediumraw as written from byte i: each form is
      decoded and its key handled before the next form is read, so the
      keys before a read past the buffer have been handled, and an exit
      stops the loop before any later byte is read. */
  function HandleFromAsWritten(s: KbdState, c: Consoles, buf: seq<nat>, rc: nat, i: nat): (o: ReadOutcome)
    requires Valid(s) && rc <= |buf|
    ensures Valid(o.step.state)
    decreases rc - i
  {
    if i >= rc then ReadOutcome(Step(s, [], false), None)
    else
      match FormAtAsWritten(buf, i)
      case Err(f) => ReadOutcome(Step(s, [], false), Some(f))
      case Ok((e, next)) =>
        var first := HandleKeyAsWritten(s, c, e);
        if first.exit then ReadOutcome(first, None)
        else
          var rest := HandleFromAsWritten(first.state, c, buf, rc, next);
          rest.(step := Then(first.events, rest.step))
  }

  /** read_mediumraw as written: an error or end of file exits; otherwise
      the loop above, with the handler whose reset_keys stops below
      KEY_MAX and the keysym table as written. */
  function ReadMediumrawAsWritten(s: KbdState, c: Consoles, buf: seq<nat>, rc: int): (o: ReadOutcome)
    requires Valid(s) && |buf| == BufSize && AllBytes(buf) && rc <= |buf|
    ensures Valid(o.step.state)
  {
    if rc <= 0 then ReadOutcome(Step(s, [], true), None)
    else HandleFromAsWritten(s, c, buf, rc, 0)
  }

  /** The loop as written against decoding the whole read first: when the
      decode stays inside the buffer the loop handles exactly the decoded
      keys and faults nowhere; it faults only where the decode does,
      without having exited; and where the decode faults, the loop either
      exits on an earlier key or faults at the same index. */
  lemma {:induction false} HandleFromAgrees(s: KbdState, c: Consoles, buf: seq<nat>, rc: nat, i: nat)
    requires Valid(s) && rc <= |buf|
    ensures var d, o := DecodeFromAsWritten(buf, rc, i), HandleFromAsWritten(s, c, buf, rc, i);
      && (d.Ok? ==> o == ReadOutcome(RunAsWritten(s, c, d.value), None))
      && (o.fault.Some? ==> !o.step.exit && d == Err(o.fault.value))
      && (d.Err? ==> o.step.exit || o.fault == Some(d.error))
    decreases rc - i
  {
    if i < rc {
      DecodeFromStep(buf, rc, i);
      match FormAtAsWritten(buf, i)
      case Err(f) =>
      case Ok((e, next)) =>
        var first := HandleKeyAsWritten(s, c, e);
        var d := DecodeFromAsWritten(buf, rc, i);
        if d.Ok? {
          assert d.value[0] == e;
        }
        if !first.exit {
          HandleFromAgrees(first.state, c, buf, rc, next);
          if d.Ok? {
            assert d.value[1..] == DecodeFromAsWritten(buf, rc, next).value;
          }
        }
    }
  }

  /** The decode as written at byte i is the form there followed by the
      decode from the next form, failing where either fails. */
  lemma DecodeFromStep(buf: seq<nat>, rc: nat, i: nat)
    requires i < rc <= |buf|
    ensures var f, d := FormAtAsWritten(buf, i), DecodeFromAsWritten(buf, rc, i);
      && (f.Err? ==> d == Err(f.error))
      && (f.Ok? ==>
            var rest := DecodeFromAsWritten(buf, rc, f.value.1);
            && (d.Ok? <==> rest.Ok?)
            && (d.Ok? ==> d.value == [f.value.0] + rest.value)
            && (d.Err? ==> d.error == rest.error))
  {
  }

  /** So a read as written that decodes inside the buffer handles the
      decoded keys in order and faults nowhere; a read that faults has
      handled every key before the faulting form, has not exited, and
      faults where decoding the whole read would. */
  lemma ReadAsWrittenAgrees(s: KbdState, c: Consoles, buf: seq<nat>, rc: nat)
    requires Valid(s) && |buf| == BufSize && AllBytes(buf) && 0 < rc <= |buf|
    ensures var d, o := DecodeAsWritten(buf, rc), ReadMediumrawAsWritten(s, c, buf, rc);
      && (d.Ok? ==> o == ReadOutcome(RunAsWritten(s, c, d.value), None))
      && (o.fault.Some? ==> !o.step.exit && d == Err(o.fault.value))
  {
    HandleFromAgrees(s, c, buf, rc, 0);
  }

  /** A full read: Ctrl, Alt and Esc pressed, then the 2 key (byte 0x02)
      up to a zero keycode field in the last byte. */
  const EscapeRead: seq<nat> := [0x1d, 0x38, 0x01] + seq(28, _ => 0x02) + [0x00]

  /** Decoding that whole read first reads past the buffer. */
  lemma EscapeReadDecodes()
    ensures |EscapeRead| == BufSize && AllBytes(EscapeRead)
    ensures EscapeRead[0] == 0x1d && EscapeRead[1] == 0x38 && EscapeRead[2] == 0x01
    ensures DecodeAsWritten(EscapeRead, BufSize) == Err(ReadPastBuffer(BufSize))
  {
    var buf := EscapeRead;
    EscapeReadBytes();
    assert forall j :: 0 <= j < BufSize - 1 ==> LowBits(buf[j]) != 0;
    PastBufferAsWritten(buf, 0);
  }

  lemma EscapeReadBytes()
    ensures |EscapeRead| == BufSize && EscapeRead[BufSize - 1] == 0
    ensures EscapeRead[0] == 0x1d && EscapeRead[1] == 0x38 && EscapeRead[2] == 0x01
    ensures forall j :: 3 <= j < BufSize - 1 ==> EscapeRead[j] == 0x02
  {
  }

  /** Pressing Ctrl, then Alt, then Esc with no other key held: the first
      two are recorded without exiting, the third exits. */
  lemma CtrlAltEscAsWritten(s: KbdState, c: Consoles)
    requires Valid(s) && forall i :: 0 <= i < KeyCnt ==> !s.keyDown[i]
    ensures var s1 := HandleKeyAsWritten(s, c, KeyEvent(KeyLeftCtrl, false));
      var s2 := HandleKeyAsWritten(s1.state, c, KeyEvent(KeyLeftAlt, false));
      !s1.exit && !s2.exit && HandleKeyAsWritten(s2.state, c, KeyEvent(KeyEsc, false)).exit
  {
    var s1 := HandleKeyAsWritten(s, c, KeyEvent(KeyLeftCtrl, false));
    assert s1.state.keyDown == s.keyDown[KeyLeftCtrl := true];
    var s2 := HandleKeyAsWritten(s1.state, c, KeyEvent(KeyLeftAlt, false));
    assert s2.state.keyDown == s1.state.keyDown[KeyLeftAlt := true];
  }

  /** The loop as written handles a read key by key: whatever follows
      bytes 1d 38 01 (Ctrl, Alt and Esc pressed) with no key held, the
      read exits at the third byte and reads no further, so EscapeRead
      exits where decoding it whole would read past the buffer. */
  lemma EscapeBeforeFault(s: KbdState, c: Consoles, buf: seq<nat>, rc: int)
    requires Valid(s) && forall i :: 0 <= i < KeyCnt ==> !s.keyDown[i]
    requires |buf| == BufSize && AllBytes(buf) && 3 <= rc <= |buf|
    requires buf[0] == 0x1d && buf[1] == 0x38 && buf[2] == 0x01
    ensures var o := ReadMediumrawAsWritten(s, c, buf, rc);
      o.step.exit && o.fault == None
  {
    assert LowBits(0x1d) == KeyLeftCtrl && LowBits(0x38) == KeyLeftAlt && LowBits(0x01) == KeyEsc;
    assert FormAtAsWritten(buf, 0) == Ok((KeyEvent(KeyLeftCtrl, false), 1));
    assert FormAtAsWritten(buf, 1) == Ok((KeyEvent(KeyLeftAlt, false), 2));
    assert FormAtAsWritten(buf, 2) == Ok((KeyEvent(KeyEsc, false), 3));
    CtrlAltEscAsWritten(s, c);
    var s1 := HandleKeyAsWritten(s, c, KeyEvent(KeyLeftCtrl, false));
    var s2 := HandleKeyAsWritten(s1.state, c, KeyEvent(KeyLeftAlt, false));
    var s3 := HandleKeyAsWritten(s2.state, c, KeyEvent(KeyEsc, false));
    var o2 := HandleFromAsWritten(s2.state, c, buf, rc, 2);
    assert o2 == ReadOutcome(s3, None);
    var o1 := HandleFromAsWritten(s1.state, c, buf, rc, 1);
    assert o1 == o2.(step := Then(s2.events, o2.step));
    var o0 := HandleFromAsWritten(s, c, buf, rc, 0);
    assert o0 == o1.(step := Then(s1.events, o1.step));
  }

  /** The data splits into whole forms, none cut short at the end. */
  predicate WholeForms(data: seq<nat>)
    decreases |data|
  {
    || |data| == 0
    || (LowBits(data[0]) != 0 && WholeForms(data[1..]))
    || (LowBits(data[0]) == 0 && |data| >= 3 && WholeForms(data[3..]))
  }

  /** What the console encodes is whole forms. */
  lemma {:induction false} EncodeWhole(evs: seq<KeyEvent>)
    requires Encodable(evs)
    ensures WholeForms(Encode(evs))
  {
    if evs != [] {
      EncodeWhole(evs[1..]);
      var data := Encode(evs);
      var n := |EncodeKey(evs[0])|;
      assert data[n..] == Encode(evs[1..]);
    }
  }

  /** When the bytes read are whole forms, the loop as written decodes
      exactly what Decode does. */
  lemma {:induction false} AsWrittenAgrees(buf: seq<nat>, rc: nat, i: nat)
    requires i <= rc <= |buf| && WholeForms(buf[i..rc])
    ensures DecodeFromAsWritten(buf, rc, i) == Ok(Decode(buf[i..rc]))
    decreases rc - i
  {
    if i < rc {
      var data := buf[i..rc];
      if LowBits(buf[i]) != 0 {
        assert data[1..] == buf[i + 1..rc];
        AsWrittenAgrees(buf, rc, i + 1);
      } else {
        assert data[3..] == buf[i + 3..rc];
        AsWrittenAgrees(buf, rc, i + 3);
      }
    }
  }

  /** So a read of what the console encodes decodes as intended. */
  lemma EncodedReadAgrees(buf: seq<nat>, rc: nat, evs: seq<KeyEvent>)
    requires rc <= |buf| && Encodable(evs) && buf[..rc] == Encode(evs)
    ensures DecodeAsWritten(buf, rc) == Ok(evs)
  {
    EncodeWhole(evs);
    assert buf[0..rc] == buf[..rc];
    AsWrittenAgrees(buf, rc, 0);
    DecodeEncode(evs);
  }

  /** A one-byte read of a zero keycode field takes its key from two bytes
      the read did not fill: two buffers that agree on the byte read decode
      to different keys, where Decode drops the cut-short form. */
  lemma StaleBytesAsWritten()
    ensures var zeros := seq(BufSize - 3, _ => 0);
      var buf1, buf2 := [0, 0, 1] + zeros, [0, 0, 2] + zeros;
      && |buf1| == |buf2| == BufSize && buf1[..1] == buf2[..1]
      && DecodeAsWritten(buf1, 1).Ok? && DecodeAsWritten(buf1, 1).value == [KeyEvent(KeyEsc, false)]
      && DecodeAsWritten(buf2, 1).Ok? && DecodeAsWritten(buf2, 1).value == [KeyEvent(Key1, false)]
      && Decode(buf1[..1]) == []
  {
    var zeros := seq(BufSize - 3, _ => 0);
    var buf1, buf2 := [0, 0, 1] + zeros, [0, 0, 2] + zeros;
    assert buf1[..1] == [0] == buf2[..1];
    assert buf1[1] == 0 && buf1[2] == 1 && buf2[1] == 0 && buf2[2] == 2;
    assert LongKeycode(0, 1) == KeyEsc && LongKeycode(0, 2) == Key1;
    assert DecodeFromAsWritten(buf1, 1, 3) == Ok([]);
    assert DecodeFromAsWritten(buf2, 1, 3) == Ok([]);
  }

  /** A full read whose bytes are one-byte forms up to a zero keycode field
      in the last byte reads past the end of the buffer. */
  lemma {:induction false} PastBufferAsWritten(buf: seq<nat>, i: nat)
    requires |buf| == BufSize && i < BufSize
    requires forall j :: i <= j < BufSize - 1 ==> LowBits(buf[j]) != 0
    requires LowBits(buf[BufSize - 1]) == 0
    ensures DecodeFromAsWritten(buf, BufSize, i) == Err(ReadPastBuffer(BufSize))
    decreases BufSize - i
  {
    if i < BufSize - 1 {
      PastBufferAsWritten(buf, i + 1);
    }
  }

  /** Ctrl and Alt are held and the key is pressed: the hot-key chord. */
  predicate HotChord(s: KbdState, e: KeyEvent)
    requires Valid(s)
  {
    CtrlDown(s.keyDown) && AltDown(s.keyDown) && !e.up
  }

  /** The keys the handler intercepts under Ctrl+Alt. */
  predicate HotKey(keycode: nat) {
    keycode == KeyEsc || keycode == KeyS || KeyF1 <= keycode <= KeyF10 || Key1 <= keycode <= Key9
  }

  /** Key codes past KEY_MAX and releases of keys that are not down
      change nothing and send nothing; every other key that is not a hot
      key is recorded and forwarded: as its scancode to a graphic console,
      as the keysym of its press, under the Shift state that includes it,
      to a text console. */
  lemma IgnoredKeys(s: KbdState, c: Consoles, e: KeyEvent)
    requires Valid(s)
    ensures e.keycode > KeyMax || (e.up && !s.keyDown[e.keycode]) ==> HandleKey(s, c, e) == Step(s, [], false)
    ensures e.keycode <= KeyMax && !(e.up && !s.keyDown[e.keycode]) && !HotKey(e.keycode) ==>
      var d := s.keyDown[e.keycode := !e.up];
      var st := HandleKey(s, c, e);
      && st.state == s.(keyDown := d) && !st.exit
      && st.events == if c.graphic(s.console) then SendScancode(e.keycode, e.up)
                      else if e.up then [] else SendKeysym(e.keycode, ShiftDown(d))
  {
  }

  /** A key that is not a modifier leaves Ctrl, Alt and Shift as they were. */
  lemma ModifiersKept(d: seq<bool>, k: nat, v: bool)
    requires |d| == KeyCnt && k < KeyCnt
    requires k !in {KeyLeftCtrl, KeyRightCtrl, KeyLeftAlt, KeyRightAlt, KeyLeftShift, KeyRightShift}
    ensures CtrlDown(d[k := v]) == CtrlDown(d) && AltDown(d[k := v]) == AltDown(d) && ShiftDown(d[k := v]) == ShiftDown(d)
  {
  }

  /** On a graphic console every ordinary key the table maps reaches the
      guest as the same key and direction. */
  lemma GuestSeesKey(s: KbdState, c: Consoles, e: KeyEvent)
    requires Valid(s) && c.graphic(s.console) && Mapped(e.keycode)
    requires !(e.up && !s.keyDown[e.keycode]) && !(HotChord(s, e) && HotKey(e.keycode))
    ensures DecodeScancode(HandleKey(s, c, e).events) == Some((e.keycode, e.up))
  {
    ScancodeLayout(e.keycode);
    if e.keycode !in {KeyLeftCtrl, KeyRightCtrl, KeyLeftAlt, KeyRightAlt, KeyLeftShift, KeyRightShift} {
      ModifiersKept(s.keyDown, e.keycode, !e.up);
    }
    assert HandleKey(s, c, e).events == SendScancode(e.keycode, e.up);
    ScancodeRoundTrip(e.keycode, e.up);
  }

  /** On a text console a key of the US rows types its character, the
      shifted one exactly when Shift is held; its release sends nothing. */
  lemma TextConsoleTypes(s: KbdState, c: Consoles, row: nat, i: nat, up: bool)
    requires Valid(s) && !c.graphic(s.console) && row < |UsRows| && i < |UsRows[row].normal|
    requires !(up && !s.keyDown[UsRows[row].first + i])
    requires !(HotChord(s, KeyEvent(UsRows[row].first + i, up)) && HotKey(UsRows[row].first + i))
    ensures var r := UsRows[row];
      HandleKey(s, c, KeyEvent(r.first + i, up)).events
      == if up then [] else [PutKeysym((if ShiftDown(s.keyDown) then r.shifted[i] else r.normal[i]) as int)]
  {
    var r := UsRows[row];
    UsLayout(row);
    assert r.first + i < 54;
    ModifiersKept(s.keyDown, r.first + i, !up);
  }

  /** The handler as written types a double quote where the apostrophe
      key is pressed without Shift on a text console, and an apostrophe
      with Shift; the US table gives the reverse. */
  lemma ApostropheSwappedAsWritten(s: KbdState, c: Consoles)
    requires Valid(s) && !c.graphic(s.console)
    ensures var e := KeyEvent(KeyApostrophe, false);
      HandleKeyAsWritten(s, c, e).events
      == [PutKeysym((if ShiftDown(s.keyDown) then '\'' else '"') as int)]
    ensures var e := KeyEvent(KeyApostrophe, false);
      HandleKey(s, c, e).events
      == [PutKeysym((if ShiftDown(s.keyDown) then '"' else '\'') as int)]
  {
    ModifiersKept(s.keyDown, KeyApostrophe, true);
    ApostropheAsWritten();
  }

  /** The whole read as written: one byte 0x28, the apostrophe key's
      press, read on a text console with no key held types a double
      quote. */
  lemma ApostropheReadAsWritten(s: KbdState, c: Consoles, buf: seq<nat>)
    requires Valid(s) && !c.graphic(s.console) && |buf| == BufSize && AllBytes(buf) && buf[0] == 0x28
    requires forall i :: 0 <= i < KeyCnt ==> !s.keyDown[i]
    ensures var o := ReadMediumrawAsWritten(s, c, buf, 1);
      o.fault == None && o.step.events == [PutKeysym('"' as int)] && !o.step.exit
  {
    assert LowBits(0x28) == KeyApostrophe && TopBit(0x28) == false;
    assert FormAtAsWritten(buf, 0) == Ok((KeyEvent(KeyApostrophe, false), 1));
    ApostropheSwappedAsWritten(s, c);
    assert !ShiftDown(s.keyDown);
    var first := HandleKeyAsWritten(s, c, KeyEvent(KeyApostrophe, false));
    assert HandleFromAsWritten(first.state, c, buf, 1, 1) == ReadOutcome(Step(first.state, [], false), None);
    assert first.events + [] == first.events;
  }

  /** Ctrl+Alt+S flips scaling, asks for a resize and a redraw, and is not
      forwarded; pressed again after its release, it flips scaling back. */
  lemma ScaleToggle(s: KbdState, c: Consoles)
    requires Valid(s) && HotChord(s, KeyEvent(KeyS, false))
    ensures var st := HandleKey(s, c, KeyEvent(KeyS, false));
      && st.state.useScale == !s.useScale && !st.exit && st.events == []
      && st.state.resizeScreen == s.resizeScreen + 1 && st.state.redrawScreen == s.redrawScreen + 1
    ensures var st1 := HandleKey(s, c, KeyEvent(KeyS, false));
      var st2 := HandleKey(st1.state, c, KeyEvent(KeyS, true));
      var st3 := HandleKey(st2.state, c, KeyEvent(KeyS, false));
      st3.state.useScale == s.useScale
  {
    ModifiersKept(s.keyDown, KeyS, true);
    var st1 := HandleKey(s, c, KeyEvent(KeyS, false));
    ModifiersKept(st1.state.keyDown, KeyS, false);
    var st2 := HandleKey(st1.state, c, KeyEvent(KeyS, true));
    assert st2.state.keyDown == s.keyDown[KeyS := false];
    ModifiersKept(st2.state.keyDown, KeyS, true);
  }

  /** Ctrl+Alt+F1..F10 asks for VT 1..10 and marks the key up, so its
      release is dropped. */
  lemma VtSwitch(s: KbdState, c: Consoles, k: nat)
    requires Valid(s) && KeyF1 <= k <= KeyF10 && HotChord(s, KeyEvent(k, false))
    ensures var st := HandleKey(s, c, KeyEvent(k, false));
      && st.events == [ActivateVt(k + 1 - KeyF1)] && 1 <= k + 1 - KeyF1 <= 10 && !st.exit
      && !st.state.keyDown[k]
      && HandleKey(st.state, c, KeyEvent(k, true)) == Step(st.state, [], false)
  {
    ModifiersKept(s.keyDown, k, true);
  }

  /** Ctrl+Alt+1..9 selects console 0..8, then every key is up and what
      is sent after the selection are releases. */
  lemma ConsoleSwitch(s: KbdState, c: Consoles, k: nat)
    requires Valid(s) && Key1 <= k <= Key9 && HotChord(s, KeyEvent(k, false))
    ensures var st := HandleKey(s, c, KeyEvent(k, false));
      && |st.events| >= 1 && st.events[0] == SelectConsole(k - Key1) && k - Key1 <= 8
      && ReleaseBytes(st.events[1..]) && !st.exit
      && st.state.console == Select(c, s.console, k - Key1)
      && forall i :: 0 <= i < KeyCnt ==> !st.state.keyDown[i]
  {
    ModifiersKept(s.keyDown, k, true);
    var d := s.keyDown[k := true];
    var active := Select(c, s.console, k - Key1);
    ResetFromEffect(d, c.graphic(active), 0, KeyCnt);
    var st := HandleKey(s, c, KeyEvent(k, false));
    assert st.events[1..] == ResetFrom(d, c.graphic(active), 0, KeyCnt).1;
  }

  /** Ctrl+Alt+Esc exits. */
  lemma EmergencyEscape(s: KbdState, c: Consoles)
    requires Valid(s) && HotChord(s, KeyEvent(KeyEsc, false))
    ensures HandleKey(s, c, KeyEvent(KeyEsc, false)).exit
  {
    ModifiersKept(s.keyDown, KeyEsc, true);
  }

  /** Key code KEY_MAX is reachable: the 3-byte form 00 05 7f decodes to
      its press, and the handler records it in key_down[KEY_MAX]. */
  lemma KeyMaxReachable(s: KbdState, c: Consoles)
    requires Valid(s)
    ensures Decode([0x00, 0x05, 0x7f]) == [KeyEvent(KeyMax, false)]
    ensures HandleKey(s, c, KeyEvent(KeyMax, false)).state.keyDown[KeyMax]
  {
    var data: seq<nat> := [0x00, 0x05, 0x7f];
    assert data[3..] == [];
    assert LongKeycode(0x05, 0x7f) == KeyMax;
  }

  /** The console switch as written skips key_down[KEY_MAX]: a key held
      there stays down across the switch, where the full reset clears it. */
  lemma KeyMaxStuckAsWritten(s: KbdState, c: Consoles, k: nat)
    requires Valid(s) && Key1 <= k <= Key9 && HotChord(s, KeyEvent(k, false)) && s.keyDown[KeyMax]
    ensures HandleKeyAsWritten(s, c, KeyEvent(k, false)).state.keyDown[KeyMax]
    ensures !HandleKey(s, c, KeyEvent(k, false)).state.keyDown[KeyMax]
  {
    ModifiersKept(s.keyDown, k, true);
    var d := s.keyDown[k := true];
    var active := Select(c, s.console, k - Key1);
    ResetFromEffect(d, c.graphic(active), 0, KeyMax);
    ConsoleSwitch(s, c, k);
  }

  /** Handling one key and then the rest, after what was already sent. */
  lemma RunStep(s: KbdState, c: Consoles, e: KeyEvent, rest: seq<KeyEvent>, sent: seq<Event>)
    requires Valid(s)
    ensures var r := HandleKey(s, c, e);
      Then(sent, Run(s, c, [e] + rest))
      == if r.exit then Step(r.state, sent + r.events, true) else Then(sent + r.events, Run(r.state, c, rest))
  {
    assert ([e] + rest)[1..] == rest;
  }

  /** One key's worth of the buffer from byte i: its 1-byte or 3-byte
      form, or nothing when a 3-byte form is cut short. */
  method NextKey(data: seq<nat>, i: nat) returns (e: KeyEvent, next: nat, found: bool)
    requires i < |data|
    ensures found ==> i < next <= |data| && Decode(data[i..]) == [e] + Decode(data[next..])
    ensures !found ==> Decode(data[i..]) == []
  {
    var b := data[i];
    if LowBits(b) != 0 {
      e, next, found := KeyEvent(LowBits(b), TopBit(b)), i + 1, true;
      assert data[i..][1..] == data[next..];
    } else if i + 3 > |data| {
      e, next, found := KeyEvent(0, TopBit(b)), i, false;
    } else {
      e, next, found := KeyEvent(LongKeycode(data[i + 1], data[i + 2]), TopBit(b)), i + 3, true;
      assert data[i..][3..] == data[next..];
    }
  }

  /** The loop of read_mediumraw over the bytes that arrived, handling each
      key as soon as it is decoded. */
  method ReadMediumrawLoop(s: KbdState, c: Consoles, buf: seq<nat>, rc: int) returns (st: Step)
    requires Valid(s) && AllBytes(buf) && rc <= |buf|
    ensures st == ReadMediumraw(s, c, buf, rc)
  {
    if rc <= 0 {
      return Step(s, [], true);
    }
    var data := buf[..rc];
    var cur := s;
    var sent: seq<Event> := [];
    var i := 0;
    while i < rc
      invariant 0 <= i <= rc && Valid(cur)
      invariant Run(s, c, Decode(data)) == Then(sent, Run(cur, c, Decode(data[i..])))
      decreases rc - i
    {
      var e, next, found := NextKey(data, i);
      if !found {
        break;
      }
      RunStep(cur, c, e, Decode(data[next..]), sent);
      var r := HandleKey(cur, c, e);
      if r.exit {
        return Step(r.state, sent + r.events, true);
      }
      sent, cur, i := sent + r.events, r.state, next;
    }
    assert Decode(data[i..]) == [];
    return Step(cur, sent, false);
  }
}
