/** The framebuffer helper: which rows of a guest framebuffer are redrawn,
    where each redrawn row is read and written, and the line byte-swapper
    of the pixman variant. */
module Framebuffer {
  import opened Wrappers
  import opened Bits

  // ---------------------------------------------------------------------
  // Row selection

  /** What the memory API reports about the framebuffer's source range:
      whether memory_region_find found a RAM section of exactly the
      requested length, whether the region logs VGA dirty pages, the
      length cpu_physical_memory_map mapped (None for a NULL mapping),
      and whether the `src_width` bytes of a row are dirty. */
  datatype Memory = Memory(sectionOk: bool, logging: bool, mapped: Option<int>, dirty: int -> bool)

  /** One call of the row converter (or, in the pixman variant, one
      swapped line copy): the row, the byte offset of its source from
      the mapped base, and its destination (byte offset from the surface
      data; the image row in the pixman variant). */
  datatype Call = Call(row: int, src: int, dest: int)

  /** What an update reports: the two out-parameters, the calls made,
      and whether the dirty bitmap of the range was reset. */
  datatype Update = Update(firstRow: int, lastRow: int, calls: seq<Call>, resetDirty: bool)

  /** Reference selection: the rows lo, lo+1, ..., hi-1 that are dirty or,
      when `invalidate` holds, all of them, in increasing order. */
  function RowsToDraw(lo: int, hi: int, dirty: int -> bool, invalidate: bool): seq<int>
    decreases hi - lo
  {
    if hi <= lo then []
    else RowsToDraw(lo, hi - 1, dirty, invalidate) + (if dirty(hi - 1) || invalidate then [hi - 1] else [])
  }

  /** A row is selected exactly when it lies in range and is dirty or the
      whole image is invalidated. */
  lemma {:induction false} RowsToDrawMembers(lo: int, hi: int, dirty: int -> bool, invalidate: bool, x: int)
    ensures x in RowsToDraw(lo, hi, dirty, invalidate) <==> lo <= x < hi && (dirty(x) || invalidate)
    decreases hi - lo
  {
    if hi > lo {
      RowsToDrawMembers(lo, hi - 1, dirty, invalidate, x);
    }
  }

  /** The selected rows all lie in [lo, hi). */
  lemma {:induction false} RowsToDrawBounds(lo: int, hi: int, dirty: int -> bool, invalidate: bool)
    ensures forall k :: 0 <= k < |RowsToDraw(lo, hi, dirty, invalidate)| ==> lo <= RowsToDraw(lo, hi, dirty, invalidate)[k] < hi
    decreases hi - lo
  {
    if hi > lo {
      RowsToDrawBounds(lo, hi - 1, dirty, invalidate);
      var init := RowsToDraw(lo, hi - 1, dirty, invalidate);
      assert forall k :: 0 <= k < |init| ==> lo <= init[k] < hi - 1;
      if dirty(hi - 1) || invalidate {
        assert RowsToDraw(lo, hi, dirty, invalidate) == init + [hi - 1];
      } else {
        assert RowsToDraw(lo, hi, dirty, invalidate) == init;
      }
    }
  }

  /** The selected rows are visited in strictly increasing order. */
  lemma {:induction false} RowsToDrawIncreasing(lo: int, hi: int, dirty: int -> bool, invalidate: bool)
    ensures forall j, k :: 0 <= j < k < |RowsToDraw(lo, hi, dirty, invalidate)| ==>
      RowsToDraw(lo, hi, dirty, invalidate)[j] < RowsToDraw(lo, hi, dirty, invalidate)[k]
    decreases hi - lo
  {
    if hi > lo {
      RowsToDrawIncreasing(lo, hi - 1, dirty, invalidate);
      RowsToDrawBounds(lo, hi - 1, dirty, invalidate);
      var init := RowsToDraw(lo, hi - 1, dirty, invalidate);
      assert forall k :: 0 <= k < |init| ==> init[k] < hi - 1;
      if dirty(hi - 1) || invalidate {
        assert RowsToDraw(lo, hi, dirty, invalidate) == init + [hi - 1];
      } else {
        assert RowsToDraw(lo, hi, dirty, invalidate) == init;
      }
    }
  }

  /** With `invalidate` every row from lo to hi-1 is redrawn. */
  lemma {:induction false} InvalidateDrawsAll(lo: int, hi: int, dirty: int -> bool)
    ensures var r := RowsToDraw(lo, hi, dirty, true);
      |r| == (if hi <= lo then 0 else hi - lo) && forall k :: 0 <= k < |r| ==> r[k] == lo + k
    decreases hi - lo
  {
    if hi > lo {
      InvalidateDrawsAll(lo, hi - 1, dirty);
    }
  }

  /** Byte offset of row `row` for rows `step` bytes apart. */
  function Offset(row: int, step: int): int {
    row * step
  }

  lemma OffsetStep(row: int, step: int)
    ensures Offset(row + 1, step) == Offset(row, step) + step
  {
  }

  /** The calls for the rows `r`: row i reads at i*srcWidth and writes at
      destOrigin + i*destRowPitch. */
  predicate CallsFor(calls: seq<Call>, r: seq<int>, srcWidth: int, destOrigin: int, destRowPitch: int) {
    |calls| == |r|
    && forall k :: 0 <= k < |calls| ==>
         calls[k] == Call(r[k], Offset(r[k], srcWidth), destOrigin + Offset(r[k], destRowPitch))
  }

  /** One more row of the scan: its call is appended exactly when it is
      drawn. */
  lemma CallsForStep(calls: seq<Call>, lo: int, i: int, dirty: int -> bool, invalidate: bool,
                     srcWidth: int, destOrigin: int, destRowPitch: int)
    requires lo <= i && CallsFor(calls, RowsToDraw(lo, i, dirty, invalidate), srcWidth, destOrigin, destRowPitch)
    ensures dirty(i) || invalidate ==>
      CallsFor(calls + [Call(i, Offset(i, srcWidth), destOrigin + Offset(i, destRowPitch))],
               RowsToDraw(lo, i + 1, dirty, invalidate), srcWidth, destOrigin, destRowPitch)
    ensures !(dirty(i) || invalidate) ==>
      CallsFor(calls, RowsToDraw(lo, i + 1, dirty, invalidate), srcWidth, destOrigin, destRowPitch)
  {
    assert RowsToDraw(lo, i + 1, dirty, invalidate)
        == RowsToDraw(lo, i, dirty, invalidate) + (if dirty(i) || invalidate then [i] else []);
  }

  /** The loop both update functions share: from row `start` up to
      `rows`-1, advance the source by `srcWidth` and the destination by
      `destRowPitch` per row, call the converter on every dirty row (every
      row under `invalidate`), and track the first and last row drawn
      with -1 meaning none yet. */
  method ScanRows(start: int, rows: int, srcWidth: int, destOrigin: int, destRowPitch: int,
                  dirty: int -> bool, invalidate: bool)
    returns (first: int, last: int, calls: seq<Call>)
    ensures CallsFor(calls, RowsToDraw(start, rows, dirty, invalidate), srcWidth, destOrigin, destRowPitch)
    ensures start >= 0 ==> (first >= 0 <==> calls != [])
    ensures start >= 0 && calls != [] ==> first == calls[0].row && last == calls[|calls| - 1].row
    ensures forall k :: 0 <= k < |calls| ==> start <= calls[k].row < rows
    ensures start >= 0 ==> forall k :: 0 <= k < |calls| ==> first <= calls[k].row <= last
  {
    var i := start;
    var src := Offset(i, srcWidth);
    var dest := destOrigin + Offset(i, destRowPitch);
    first, last := -1, 0;
    calls := [];
    while i < rows
      invariant start <= i && (i <= rows || i == start)
      invariant src == Offset(i, srcWidth) && dest == destOrigin + Offset(i, destRowPitch)
      invariant CallsFor(calls, RowsToDraw(start, i, dirty, invalidate), srcWidth, destOrigin, destRowPitch)
      invariant start >= 0 ==> first == if calls == [] then -1 else calls[0].row
      invariant calls != [] ==> last == calls[|calls| - 1].row
      decreases rows - i
    {
      RowsToDrawBounds(start, i, dirty, invalidate);
      CallsForStep(calls, start, i, dirty, invalidate, srcWidth, destOrigin, destRowPitch);
      if dirty(i) || invalidate {
        calls := calls + [Call(i, src, dest)];
        if first == -1 {
          first := i;
        }
        last := i;
      }
      OffsetStep(i, srcWidth);
      OffsetStep(i, destRowPitch);
      src := src + srcWidth;
      dest := dest + destRowPitch;
      i := i + 1;
    }
    RowsToDrawBounds(start, i, dirty, invalidate);
    RowsToDrawIncreasing(start, i, dirty, invalidate);
    assert i <= rows || RowsToDraw(start, i, dirty, invalidate) == [];
  }

  /** Whether the update gets past its memory checks: a RAM section of
      exactly srcLen bytes, mapped in full. */
  predicate MapsWhole(mem: Memory, srcLen: int) {
    mem.sectionOk && mem.mapped.Some? && mem.mapped.value == srcLen
  }

  /** The destination of row 0 once negative pitches are accounted for:
      a negative column pitch starts at the last column, a negative row
      pitch at the last row. */
  function DestOrigin(cols: int, rows: int, destRowPitch: int, destColPitch: int): (o: int)
    ensures destColPitch >= 0 && destRowPitch >= 0 ==> o == 0
  {
    (if destColPitch < 0 then -destColPitch * (cols - 1) else 0)
    + (if destRowPitch < 0 then -destRowPitch * (rows - 1) else 0)
  }

  /** framebuffer_update_display.  `firstRowIn` is the row to start from
      (the in-value of *first_row), `lastRowIn` the value *last_row keeps
      when nothing is drawn. */
  method UpdateDisplay(mem: Memory, cols: int, rows: int, srcWidth: int, destRowPitch: int, destColPitch: int,
                       invalidate: bool, firstRowIn: int, lastRowIn: int)
    returns (u: Update)
    ensures !MapsWhole(mem, srcWidth * rows) ==> u == Update(-1, lastRowIn, [], false)
    ensures MapsWhole(mem, srcWidth * rows) ==>
      CallsFor(u.calls, RowsToDraw(firstRowIn, rows, mem.dirty, invalidate || !mem.logging),
               srcWidth, DestOrigin(cols, rows, destRowPitch, destColPitch), destRowPitch)
    ensures firstRowIn >= 0 ==> (u.resetDirty <==> u.calls != [])
    ensures firstRowIn >= 0 && u.calls == [] ==> u.firstRow == -1 && u.lastRow == lastRowIn
    ensures firstRowIn >= 0 && u.calls != [] ==>
      && u.firstRow == u.calls[0].row && u.lastRow == u.calls[|u.calls| - 1].row
      && firstRowIn <= u.firstRow <= u.lastRow < rows
      && forall k :: 0 <= k < |u.calls| ==> u.firstRow <= u.calls[k].row <= u.lastRow
  {
    var srcLen := srcWidth * rows;
    if !mem.sectionOk {
      return Update(-1, lastRowIn, [], false);
    }
    var inv := invalidate || !mem.logging;
    if mem.mapped.None? || mem.mapped.value != srcLen {
      return Update(-1, lastRowIn, [], false);
    }
    var origin := DestOrigin(cols, rows, destRowPitch, destColPitch);
    var first, last, calls := ScanRows(firstRowIn, rows, srcWidth, origin, destRowPitch, mem.dirty, inv);
    if first < 0 {
      return Update(-1, lastRowIn, calls, false);
    }
    return Update(first, last, calls, true);
  }

  /** C's `/` on int: the quotient truncated toward zero. */
  function TruncDiv(a: int, b: int): (q: int)
    requires b > 0
    ensures a >= 0 ==> q * b <= a < q * b + b
    ensures a < 0 ==> q * b - b < a <= q * b
  {
    if a >= 0 then a / b else -((-a) / b)
  }

  /** framebuffer_update_display_swap_pixman, row selection: the source
      row length is cols*bpp/8, there is no override of `invalidate`, and
      each drawn row is swapped into the line buffer and copied to image
      row i (the call's dest). */
  method UpdateDisplaySwapPixman(mem: Memory, cols: int, rows: int, bpp: int,
                                 invalidate: bool, firstRowIn: int, lastRowIn: int)
    returns (u: Update)
    ensures var srcWidth := TruncDiv(cols * bpp, 8);
      && (!MapsWhole(mem, srcWidth * rows) ==> u == Update(-1, lastRowIn, [], false))
      && (MapsWhole(mem, srcWidth * rows) ==>
            CallsFor(u.calls, RowsToDraw(firstRowIn, rows, mem.dirty, invalidate), srcWidth, 0, 1))
    ensures firstRowIn >= 0 ==> (u.resetDirty <==> u.calls != [])
    ensures firstRowIn >= 0 && u.calls == [] ==> u.firstRow == -1 && u.lastRow == lastRowIn
    ensures firstRowIn >= 0 && u.calls != [] ==>
      && u.firstRow == u.calls[0].row && u.lastRow == u.calls[|u.calls| - 1].row
      && firstRowIn <= u.firstRow <= u.lastRow < rows
  {
    var srcWidth := TruncDiv(cols * bpp, 8);
    var srcLen := srcWidth * rows;
    if !mem.sectionOk {
      return Update(-1, lastRowIn, [], false);
    }
    if mem.mapped.None? || mem.mapped.value != srcLen {
      return Update(-1, lastRowIn, [], false);
    }
    var first, last, calls := ScanRows(firstRowIn, rows, srcWidth, 0, 1, mem.dirty, invalidate);
    if first < 0 {
      return Update(-1, lastRowIn, calls, false);
    }
    return Update(first, last, calls, true);
  }

  /** Multiplying by a non-negative factor keeps order. */
  lemma OffsetMonotone(a: int, b: int, n: int)
    requires a <= b && n >= 0
    ensures Offset(a, n) <= Offset(b, n)
  {
    assert b * n - a * n == (b - a) * n;
  }

  /** Whatever the sign of the row pitch, every row 0..rows-1 starts within
      |pitch|*(rows-1) bytes after the column origin: with a negative pitch
      the last row is written first in memory and row 0 last. */
  lemma DestRowsInSurface(cols: int, rows: int, destRowPitch: int, destColPitch: int, r: int)
    requires 0 <= r < rows
    ensures var colOrigin := if destColPitch < 0 then -destColPitch * (cols - 1) else 0;
      var d := DestOrigin(cols, rows, destRowPitch, destColPitch) + r * destRowPitch;
      var span := (if destRowPitch < 0 then -destRowPitch else destRowPitch) * (rows - 1);
      colOrigin <= d <= colOrigin + span
      && (destRowPitch < 0 ==> (r == rows - 1 ==> d == colOrigin) && (r == 0 ==> d == colOrigin + span))
  {
    if destRowPitch < 0 {
      var p := -destRowPitch;
      assert -destRowPitch * (rows - 1) + r * destRowPitch == p * (rows - 1 - r);
      OffsetMonotone(0, rows - 1 - r, p);
      OffsetMonotone(rows - 1 - r, rows - 1, p);
    } else {
      OffsetMonotone(0, r, destRowPitch);
      OffsetMonotone(r, rows - 1, destRowPitch);
    }
  }

  // ---------------------------------------------------------------------
  // framebuffer_swap

  /** enum framebuffer_swapmode. */
  datatype SwapMode = SwapNone | Swap16Bytes | Swap32Bytes | Swap32Words

  /** The unit each mode works on: bytes, halfwords or words. */
  function UnitSize(mode: SwapMode): (u: nat)
    ensures u == 1 || u == 2 || u == 4
  {
    match mode
    case SwapNone => 1
    case Swap16Bytes => 2
    case Swap32Bytes => 4
    case Swap32Words => 4
  }

  /** How many units the mode handles for a line of `stride` bytes:
      memcpy copies stride bytes, the loops stride/2 or stride/4 units. */
  function UnitCount(mode: SwapMode, stride: nat): (n: nat)
    ensures Offset(n, UnitSize(mode)) <= stride < Offset(n, UnitSize(mode)) + UnitSize(mode)
  {
    stride / UnitSize(mode)
  }

  /** One unit as the C code handles it on a host of the given byte order:
      load it, transform the value, store it back. */
  function SwapUnit(mode: SwapMode, bigEndianHost: bool, m: seq<byte>): (r: seq<byte>)
    requires |m| == UnitSize(mode)
    ensures |r| == |m|
  {
    match mode
    case SwapNone => m
    case Swap16Bytes => StoreHalf(bigEndianHost, Bswap16(LoadHalf(bigEndianHost, m)))
    case Swap32Bytes => StoreWord(bigEndianHost, Bswap32(LoadWord(bigEndianHost, m)))
    case Swap32Words => StoreWord(bigEndianHost, SwapHalves(LoadWord(bigEndianHost, m)))
  }

  /** Reference permutation within a unit: which source byte lands at
      position t.  16-bit swaps exchange the two bytes, 32-bit byte swaps
      reverse four, 32-bit word swaps exchange the two byte pairs. */
  function UnitPartner(mode: SwapMode, t: int): (s: int)
    requires 0 <= t < UnitSize(mode)
    ensures 0 <= s < UnitSize(mode)
  {
    match mode
    case SwapNone => t
    case Swap16Bytes => 1 - t
    case Swap32Bytes => 3 - t
    case Swap32Words => if t < 2 then t + 2 else t - 2
  }

  /** The permutation is its own inverse. */
  lemma UnitPartnerInvolutive(mode: SwapMode, t: int)
    requires 0 <= t < UnitSize(mode)
    ensures UnitPartner(mode, UnitPartner(mode, t)) == t
  {
  }

  /** The 16-bit swap exchanges the two bytes on either host. */
  lemma Swap16Unit(bigEndianHost: bool, m: seq<byte>)
    requires |m| == 2
    ensures SwapUnit(Swap16Bytes, bigEndianHost, m) == [m[1], m[0]]
  {
    var h := LoadHalf(bigEndianHost, m);
    assert LoadHalf(bigEndianHost, StoreHalf(bigEndianHost, Bswap16(h))) == Bswap16(h);
  }

  /** The 32-bit byte swap reverses the four bytes on either host. */
  lemma Swap32BytesUnit(bigEndianHost: bool, m: seq<byte>)
    requires |m| == 4
    ensures SwapUnit(Swap32Bytes, bigEndianHost, m) == [m[3], m[2], m[1], m[0]]
  {
    var w := LoadWord(bigEndianHost, m);
    Bswap32Bytes(w);
    var r := StoreWord(bigEndianHost, Bswap32(w));
    assert LoadWord(bigEndianHost, r) == Bswap32(w);
  }

  /** The 32-bit word swap exchanges the two byte pairs on either host. */
  lemma Swap32WordsUnit(bigEndianHost: bool, m: seq<byte>)
    requires |m| == 4
    ensures SwapUnit(Swap32Words, bigEndianHost, m) == [m[2], m[3], m[0], m[1]]
  {
    var w := LoadWord(bigEndianHost, m);
    SwapHalvesBytes(w);
    var r := StoreWord(bigEndianHost, SwapHalves(w));
    assert LoadWord(bigEndianHost, r) == SwapHalves(w);
  }

  /** Exchanging halves moves bytes 0,1 to 2,3 and back. */
  lemma SwapHalvesBytes(w: bv32)
    ensures ByteOf(SwapHalves(w), 0) == ByteOf(w, 2) && ByteOf(SwapHalves(w), 1) == ByteOf(w, 3)
    ensures ByteOf(SwapHalves(w), 2) == ByteOf(w, 0) && ByteOf(SwapHalves(w), 3) == ByteOf(w, 1)
  {
  }

  /** A unit rearranged by the reference permutation. */
  function Permute(mode: SwapMode, m: seq<byte>): (r: seq<byte>)
    requires |m| == UnitSize(mode)
    ensures |r| == |m|
  {
    seq(|m|, t requires 0 <= t < |m| => m[UnitPartner(mode, t)])
  }

  /** On either host, a unit handled by the C code is the unit permuted. */
  lemma SwapUnitPermutes(mode: SwapMode, bigEndianHost: bool, m: seq<byte>)
    requires |m| == UnitSize(mode)
    ensures SwapUnit(mode, bigEndianHost, m) == Permute(mode, m)
  {
    match mode
    case SwapNone =>
    case Swap16Bytes => Swap16Unit(bigEndianHost, m);
    case Swap32Bytes => Swap32BytesUnit(bigEndianHost, m);
    case Swap32Words => Swap32WordsUnit(bigEndianHost, m);
  }

  /** Where byte j of the result comes from: the byte UnitPartner places
      there, within j's own unit. */
  function SourceIndex(mode: SwapMode, n: nat, j: nat): (i: nat)
    requires j < Offset(n, UnitSize(mode))
    ensures i < Offset(n, UnitSize(mode))
  {
    var u := UnitSize(mode);
    UnitSplit(j, u);
    UnitBelow(j, u, n);
    OffsetStep(j / u, u);
    OffsetMonotone(j / u + 1, n, u);
    Offset(j / u, u) + UnitPartner(mode, j % u)
  }

  /** Reference result at byte level: the first n units of `src`, each
      rearranged by the mode's permutation. */
  function Swapped(mode: SwapMode, src: seq<byte>, n: nat): (r: seq<byte>)
    requires Offset(n, UnitSize(mode)) <= |src|
    ensures |r| == Offset(n, UnitSize(mode))
  {
    seq(Offset(n, UnitSize(mode)), j requires 0 <= j < Offset(n, UnitSize(mode)) => src[SourceIndex(mode, n, j)])
  }

  /** Byte t of unit q comes from byte UnitPartner(t) of the same unit. */
  lemma SourceIndexInUnit(mode: SwapMode, n: nat, q: nat, t: nat)
    requires q < n && t < UnitSize(mode)
    ensures Offset(q, UnitSize(mode)) + t < Offset(n, UnitSize(mode))
    ensures SourceIndex(mode, n, Offset(q, UnitSize(mode)) + t) == Offset(q, UnitSize(mode)) + UnitPartner(mode, t)
  {
    var u := UnitSize(mode);
    OffsetStep(q, u);
    OffsetMonotone(q + 1, n, u);
    UnitOf(q, u, t);
  }

  /** Position q*u+t lies in unit q at offset t. */
  lemma UnitOf(q: nat, u: nat, t: nat)
    requires u == 1 || u == 2 || u == 4
    requires t < u
    ensures (Offset(q, u) + t) / u == q && (Offset(q, u) + t) % u == t
  {
    if u == 1 {
    } else if u == 2 {
    } else {
    }
  }

  /** One loop step of framebuffer_swap: the reference for k+1 units is
      the reference for k units followed by unit k permuted. */
  lemma SwappedStep(mode: SwapMode, src: seq<byte>, k: nat)
    requires Offset(k, UnitSize(mode)) + UnitSize(mode) <= |src|
    ensures Offset(k + 1, UnitSize(mode)) == Offset(k, UnitSize(mode)) + UnitSize(mode)
    ensures Swapped(mode, src, k + 1)
         == Swapped(mode, src, k) + Permute(mode, src[Offset(k, UnitSize(mode)) .. Offset(k, UnitSize(mode)) + UnitSize(mode)])
  {
    var u := UnitSize(mode);
    OffsetStep(k, u);
    var m := src[Offset(k, u) .. Offset(k, u) + u];
    var rhs := Swapped(mode, src, k) + Permute(mode, m);
    forall j | 0 <= j < Offset(k + 1, u)
      ensures Swapped(mode, src, k + 1)[j] == rhs[j]
    {
      SwappedStepAt(mode, src, k, j);
    }
  }

  /** SwappedStep at byte j. */
  lemma SwappedStepAt(mode: SwapMode, src: seq<byte>, k: nat, j: nat)
    requires Offset(k, UnitSize(mode)) + UnitSize(mode) <= |src|
    requires j < Offset(k, UnitSize(mode)) + UnitSize(mode)
    ensures Offset(k + 1, UnitSize(mode)) == Offset(k, UnitSize(mode)) + UnitSize(mode)
    ensures Swapped(mode, src, k + 1)[j]
         == (Swapped(mode, src, k) + Permute(mode, src[Offset(k, UnitSize(mode)) .. Offset(k, UnitSize(mode)) + UnitSize(mode)]))[j]
  {
    var u := UnitSize(mode);
    OffsetStep(k, u);
    if j < Offset(k, u) {
      SwappedPrefix(mode, src, k, j);
    } else {
      SwappedLast(mode, src, k, j - Offset(k, u));
    }
  }

  lemma SwappedPrefix(mode: SwapMode, src: seq<byte>, k: nat, j: nat)
    requires Offset(k + 1, UnitSize(mode)) <= |src| && j < Offset(k, UnitSize(mode))
    ensures Offset(k, UnitSize(mode)) <= Offset(k + 1, UnitSize(mode))
    ensures Swapped(mode, src, k + 1)[j] == Swapped(mode, src, k)[j]
  {
    var u := UnitSize(mode);
    OffsetStep(k, u);
    assert SourceIndex(mode, k + 1, j) == SourceIndex(mode, k, j);
  }

  lemma SwappedLast(mode: SwapMode, src: seq<byte>, k: nat, t: nat)
    requires Offset(k + 1, UnitSize(mode)) <= |src| && t < UnitSize(mode)
    ensures Offset(k + 1, UnitSize(mode)) == Offset(k, UnitSize(mode)) + UnitSize(mode)
    ensures Swapped(mode, src, k + 1)[Offset(k, UnitSize(mode)) + t]
         == Permute(mode, src[Offset(k, UnitSize(mode)) .. Offset(k, UnitSize(mode)) + UnitSize(mode)])[t]
  {
    var u := UnitSize(mode);
    OffsetStep(k, u);
    SourceIndexInUnit(mode, k + 1, k, t);
  }

  /** The body of framebuffer_swap's loop keeps the buffer equal to the
      reference, on either host. */
  lemma SwapLoopStep(mode: SwapMode, bigEndianHost: bool, src: seq<byte>, k: nat, done: seq<byte>)
    requires Offset(k, UnitSize(mode)) + UnitSize(mode) <= |src| && done == Swapped(mode, src, k)
    ensures Offset(k + 1, UnitSize(mode)) == Offset(k, UnitSize(mode)) + UnitSize(mode)
    ensures done + SwapUnit(mode, bigEndianHost, src[Offset(k, UnitSize(mode)) .. Offset(k, UnitSize(mode)) + UnitSize(mode)])
         == Swapped(mode, src, k + 1)
  {
    var u := UnitSize(mode);
    SwapUnitPermutes(mode, bigEndianHost, src[Offset(k, u) .. Offset(k, u) + u]);
    SwappedStep(mode, src, k);
  }

  /** Reading the guest row at index, past its end. */
  datatype SwapFault = ReadPastRow(index: nat)

  /** framebuffer_swap's loop over the first n units of the row. */
  method SwapUnits(mode: SwapMode, bigEndianHost: bool, src: seq<byte>, n: nat) returns (done: seq<byte>)
    requires Offset(n, UnitSize(mode)) <= |src|
    ensures done == Swapped(mode, src, n)
  {
    var u := UnitSize(mode);
    done := [];
    var k := 0;
    while k < n
      invariant 0 <= k <= n
      invariant done == Swapped(mode, src, k)
    {
      OffsetStep(k, u);
      OffsetMonotone(k + 1, n, u);
      SwapLoopStep(mode, bigEndianHost, src, k, done);
      var unit := SwapUnit(mode, bigEndianHost, src[Offset(k, u) .. Offset(k, u) + u]);
      done := done + unit;
      k := k + 1;
    }
  }

  /** framebuffer_swap: `line` is the line buffer (its length the image
      stride) and `src` the guest row.  Unit after unit, each is loaded
      on the host, transformed and stored into the buffer; bytes past the
      last whole unit keep their old value.  The result does not depend
      on the host's byte order.  The stride decides how much of the row is
      read, so a row shorter than the whole units of the stride is read
      past its end. */
  method FramebufferSwap(mode: SwapMode, bigEndianHost: bool, src: seq<byte>, line: seq<byte>)
    returns (r: Result<seq<byte>, SwapFault>)
    ensures r.Ok? <==> Offset(UnitCount(mode, |line|), UnitSize(mode)) <= |src|
    ensures r.Ok? ==> r.value == Swapped(mode, src, UnitCount(mode, |line|)) + line[Offset(UnitCount(mode, |line|), UnitSize(mode))..]
    ensures r.Err? ==> r.error == ReadPastRow(|src|)
  {
    var u := UnitSize(mode);
    var swaps := UnitCount(mode, |line|);
    if Offset(swaps, u) > |src| {
      return Err(ReadPastRow(|src|));
    }
    var done := SwapUnits(mode, bigEndianHost, src, swaps);
    r := Ok(done + line[Offset(swaps, u)..]);
  }

  /** A row of three 16-bit pixels is six bytes; a line buffer whose
      stride is rounded up to whole 32-bit words is eight, and swapping
      it reads past the row. */
  method ShortRowReadsPast() returns (r: Result<seq<byte>, SwapFault>)
    ensures r == Err(ReadPastRow(6))
  {
    r := FramebufferSwap(Swap16Bytes, false, [1, 2, 3, 4, 5, 6], [0, 0, 0, 0, 0, 0, 0, 0]);
  }

  /** Every position lies in a unit: j is unit j/u at offset j%u. */
  lemma UnitSplit(j: nat, u: nat)
    requires u == 1 || u == 2 || u == 4
    ensures j == Offset(j / u, u) + j % u && j % u < u
  {
    if u == 1 {
    } else if u == 2 {
    } else {
    }
  }

  /** A position below n units lies in one of the first n units. */
  lemma UnitBelow(j: nat, u: nat, n: nat)
    requires u == 1 || u == 2 || u == 4
    requires j < Offset(n, u)
    ensures j / u < n
  {
    UnitSplit(j, u);
    OffsetCancel(j / u, n, u);
  }

  /** Offsets by a positive step reflect order. */
  lemma OffsetCancel(a: int, b: int, n: int)
    requires n > 0
    ensures Offset(a, n) < Offset(b, n) ==> a < b
  {
    if a >= b {
      OffsetMonotone(b, a, n);
    }
  }

  /** Taking a byte's source twice leads back to the byte. */
  lemma SourceIndexInvolutive(mode: SwapMode, n: nat, j: nat)
    requires j < Offset(n, UnitSize(mode))
    ensures SourceIndex(mode, n, SourceIndex(mode, n, j)) == j
  {
    var u := UnitSize(mode);
    UnitSplit(j, u);
    UnitBelow(j, u, n);
    var q, t := j / u, j % u;
    SourceIndexInUnit(mode, n, q, t);
    SourceIndexInUnit(mode, n, q, UnitPartner(mode, t));
    UnitPartnerInvolutive(mode, t);
  }

  /** Swapping a swapped line restores it: each mode's permutation is an
      involution, so framebuffer_swap applied twice gives back the whole
      units of the source. */
  lemma SwappedInvolutive(mode: SwapMode, src: seq<byte>, n: nat)
    requires Offset(n, UnitSize(mode)) <= |src|
    ensures Swapped(mode, Swapped(mode, src, n), n) == src[..Offset(n, UnitSize(mode))]
  {
    forall j | 0 <= j < Offset(n, UnitSize(mode))
      ensures Swapped(mode, Swapped(mode, src, n), n)[j] == src[j]
    {
      SourceIndexInvolutive(mode, n, j);
    }
  }

  /** Byte level: byte t of unit q of the result is byte UnitPartner(t) of
      unit q of the source. */
  lemma SwappedAt(mode: SwapMode, src: seq<byte>, n: nat, q: nat, t: nat)
    requires Offset(n, UnitSize(mode)) <= |src| && q < n && t < UnitSize(mode)
    ensures Offset(q, UnitSize(mode)) + t < Offset(n, UnitSize(mode))
    ensures Swapped(mode, src, n)[Offset(q, UnitSize(mode)) + t] == src[Offset(q, UnitSize(mode)) + UnitPartner(mode, t)]
  {
    SourceIndexInUnit(mode, n, q, t);
  }
}
