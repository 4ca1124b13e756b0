/** The legacy QEMU_AUDIO_* environment variables, translated into
    `-audiodev` options: the unit conversions, the value transforms and the
    walk over the variable-to-option map.  The environment and the option
    set are finite maps from names to strings; a call that ends in exit(1)
    or divides by zero is an error result. */
module AudioLegacy {
  import opened Wrappers
  import opened Decimal

  /** uint64_t / unsigned long long: values below 2^64, arithmetic modulo it. */
  const U64Limit: nat := 0x1_0000_0000_0000_0000

  type U64 = x: int | 0 <= x < U64Limit

  function Wrap(x: nat): U64 {
    x % U64Limit
  }

  lemma WrapSmall(x: nat)
    requires x < U64Limit
    ensures Wrap(x) == x
  {
  }

  /** Why a translation stops: toull's and the format check's exit(1), an
      integer division by zero, and the abort of &error_abort when the
      option group for an id cannot be created. */
  datatype Failure = InvalidInteger(text: string) | InvalidFormat(text: string) | DivisionByZero | CreateAborted(id: string)

  datatype EnvTransform =
    | TransformNone
    | TransformBool
    | TransformFmt
    | FramesToUsecsIn
    | FramesToUsecsOut
    | SamplesToUsecsIn
    | SamplesToUsecsOut
    | BytesToUsecsIn
    | BytesToUsecsOut
    | MillisToUsecs
    | HzToUsecs

  /** A slot of a SimpleEnvMap array: an entry, or the all-zero terminator. */
  datatype MapSlot = Entry(name: string, option: string, transform: EnvTransform) | EndOfList

  type Env = map<string, string>
  type Opts = map<string, string>

  // ---------------------------------------------------------------------
  // toull and tostr

  /** toull: a base-10 unsigned number that fills the whole string and fits
      in 64 bits; anything else is fatal. */
  function Toull(s: string): Result<U64, Failure> {
    if |s| >= 1 && AllDigits(s) && Value(s) < U64Limit then Ok(Value(s)) else Err(InvalidInteger(s))
  }

  /** LEN: the buffer tostr formats into, for a 64-bit unsigned long long. */
  const Len: nat := (8 * 8 - 1) / 3 + 2

  /** tostr: snprintf of "%llu" into LEN bytes keeps at most LEN - 1
      characters; the digits of a 64-bit value always fit. */
  function Tostr(v: U64): (s: string)
    ensures s == Render(v)
    ensures |s| <= 20 && |s| + 1 <= Len
  {
    DigitsOfU64(v);
    Truncate(Render(v), Len - 1)
  }

  /** The first n characters of s, as snprintf keeps them. */
  function Truncate(s: string, n: nat): (t: string)
    ensures |t| <= n && t <= s
    ensures |s| <= n ==> t == s
  {
    if |s| <= n then s else s[..n]
  }

  /** Every 64-bit value has at most 20 decimal digits. */
  lemma DigitsOfU64(v: U64)
    ensures |Render(v)| <= 20
  {
    assert Pow10(5) == 100000;
    assert Pow10(10) == 10000000000;
    assert Pow10(15) == 1000000000000000;
    assert Pow10(20) == 100000000000000000000;
    RenderLength(v, 20);
  }

  /** toull reads back what tostr wrote. */
  lemma ToullOfTostr(v: U64)
    ensures Toull(Tostr(v)) == Ok(v)
  {
    ValueOfRender(v);
  }

  /** A number written without leading zeros comes back from toull and
      tostr unchanged; every other accepted spelling ("007") comes back in
      that form. */
  lemma TostrOfToull(s: string)
    requires Toull(s).Ok?
    ensures Canonical(Tostr(Toull(s).value))
    ensures Canonical(s) ==> Tostr(Toull(s).value) == s
  {
    RenderCanonical(Toull(s).value);
    if Canonical(s) {
      RenderOfValue(s);
    }
  }

  /** toull refuses the empty string, any character that is not a decimal
      digit (a sign included) and any number of 2^64 or more. */
  lemma ToullRejects(s: string, i: nat)
    ensures s == [] ==> Toull(s) == Err(InvalidInteger(s))
    ensures i < |s| && !IsDigit(s[i]) ==> Toull(s) == Err(InvalidInteger(s))
    ensures AllDigits(s) && Value(s) >= U64Limit ==> Toull(s) == Err(InvalidInteger(s))
  {
  }

  // ---------------------------------------------------------------------
  // Unit conversions

  /** qemu_opt_get_number: the option read as a number, or the default
      when it is unset. */
  function GetNumber(opts: Opts, name: string, default: U64): Result<U64, Failure> {
    if name in opts then Toull(opts[name]) else Ok(default)
  }

  function FrequencyOption(input: bool): string {
    if input then "in.frequency" else "out.frequency"
  }

  function ChannelsOption(input: bool): string {
    if input then "in.channels" else "out.channels"
  }

  function FormatOption(input: bool): string {
    if input then "in.format" else "out.format"
  }

  /** frames_to_usecs: (frames * 1000000 + freq / 2) / freq in uint64_t,
      freq being the frequency option or 44100. */
  function FramesToUsecs(opts: Opts, frames: U64, input: bool): Result<U64, Failure> {
    var freq :- GetNumber(opts, FrequencyOption(input), 44100);
    if freq == 0 then Err(DivisionByZero)
    else
      var x: nat := Wrap(Wrap(frames as int * 1000000) + freq as int / 2);
      Ok(Quotient(x, freq))
  }

  /** x / f, which is no larger than x. */
  function Quotient(x: U64, f: U64): (q: U64)
    requires f > 0
    ensures q <= x
  {
    QuotientBound(x, f);
    x as int / f as int
  }

  /** The quotient and remainder of a division by a positive divisor. */
  lemma QuotientBound(x: nat, f: nat)
    requires f > 0
    ensures x / f <= x
    ensures (x / f) * f <= x < (x / f + 1) * f
  {
    var q, m := x / f, x % f;
    assert x == q * f + m && m < f;
    MulMonotone(1, f, q);
    assert (q + 1) * f == q * f + f;
  }

  /** r is x / f rounded to the nearest integer, a tie rounding up. */
  predicate NearestQuotient(r: int, x: int, f: int) {
    (2 * r - 1) * f <= 2 * x < (2 * r + 1) * f
  }

  /** Adding half the divisor before dividing rounds to nearest. */
  lemma RoundedDivision(x: nat, f: nat)
    requires f > 0
    ensures NearestQuotient((x + f / 2) / f, x, f)
  {
    var h := f / 2;
    var q := (x + h) / f;
    var m := (x + h) % f;
    assert x + h == q * f + m && 0 <= m < f;
    assert 2 * h == f || 2 * h == f - 1;
    assert (2 * q - 1) * f == 2 * (q * f) - f;
    assert (2 * q + 1) * f == 2 * (q * f) + f;
  }

  /** At most one integer is the nearest quotient. */
  lemma NearestQuotientUnique(a: int, b: int, x: int, f: int)
    requires f > 0 && NearestQuotient(a, x, f) && NearestQuotient(b, x, f)
    ensures a == b
  {
    assert (2 * a - 1) * f < (2 * b + 1) * f;
    assert (2 * b - 1) * f < (2 * a + 1) * f;
    if a > b {
      assert 2 * b + 1 <= 2 * a - 1;
      MulMonotone(2 * b + 1, 2 * a - 1, f);
      assert false;
    } else if a < b {
      assert 2 * a + 1 <= 2 * b - 1;
      MulMonotone(2 * a + 1, 2 * b - 1, f);
      assert false;
    }
  }

  lemma MulMonotone(a: int, b: int, f: int)
    requires a <= b && f >= 0
    ensures a * f <= b * f
  {
  }

  /** frames_to_usecs fails only on an unreadable or zero frequency; with
      no frequency option it uses 44100; below 2^63 microseconds it is the
      duration of the frames rounded to the nearest microsecond. */
  lemma FramesToUsecsRounds(opts: Opts, frames: U64, input: bool)
    requires frames as int * 1000000 < U64Limit / 2
    ensures var freq := GetNumber(opts, FrequencyOption(input), 44100);
      var r := FramesToUsecs(opts, frames, input);
      && (FrequencyOption(input) !in opts ==> freq == Ok(44100))
      && (r.Ok? <==> freq.Ok? && freq.value != 0)
      && (freq == Ok(0) ==> r == Err(DivisionByZero))
      && (r.Ok? ==> NearestQuotient(r.value, frames as int * 1000000, freq.value))
  {
    var freq := GetNumber(opts, FrequencyOption(input), 44100);
    if freq.Ok? && freq.value != 0 {
      var f: nat := freq.value;
      var x: nat := frames as int * 1000000;
      assert Wrap(x) == x;
      assert Wrap(x + f / 2) == x + f / 2;
      RoundedDivision(x, f);
    }
  }

  /** samples_to_usecs: samples / channels frames, channels being the
      channels option or 2. */
  function SamplesToUsecs(opts: Opts, samples: U64, input: bool): Result<U64, Failure> {
    var channels :- GetNumber(opts, ChannelsOption(input), 2);
    if channels == 0 then Err(DivisionByZero)
    else FramesToUsecs(opts, Quotient(samples, channels), input)
  }

  /** samples_to_usecs drops a partial frame, then rounds the frames'
      duration to the nearest microsecond; with no channels option a frame
      is two samples. */
  lemma SamplesToUsecsRounds(opts: Opts, samples: U64, input: bool)
    requires samples as int * 1000000 < U64Limit / 2
    ensures var channels := GetNumber(opts, ChannelsOption(input), 2);
      var freq := GetNumber(opts, FrequencyOption(input), 44100);
      var r := SamplesToUsecs(opts, samples, input);
      && (ChannelsOption(input) !in opts ==> channels == Ok(2))
      && (channels == Ok(0) ==> r == Err(DivisionByZero))
      && (r.Ok? <==> channels.Ok? && channels.value != 0 && freq.Ok? && freq.value != 0)
      && (r.Ok? ==> var c: int, frames: int := channels.value, samples as int / channels.value as int;
            && frames * c <= samples < (frames + 1) * c
            && NearestQuotient(r.value, frames * 1000000, freq.value))
  {
    var channels := GetNumber(opts, ChannelsOption(input), 2);
    if channels.Ok? && channels.value != 0 {
      var c: nat := channels.value;
      var frames := Quotient(samples, c);
      QuotientBound(samples, c);
      assert frames as int == samples as int / c;
      MulMonotone(frames as int, samples as int, 1000000);
      FramesToUsecsRounds(opts, frames, input);
    }
  }

  /** The sample size bytes_to_usecs reads: the format option taken as a
      bit count, or 16 bits, divided by 8. */
  function BytesPerSample(opts: Opts, input: bool): Result<U64, Failure> {
    if FormatOption(input) in opts then
      var bits :- Toull(opts[FormatOption(input)]);
      Ok(Quotient(bits, 8))
    else Ok(16 / 8)
  }

  /** bytes_to_usecs as written: the byte count is multiplied by the
      sample size where it should be divided by it. */
  function BytesToUsecsAsWritten(opts: Opts, bytes: U64, input: bool): Result<U64, Failure> {
    var bytesPerSample :- BytesPerSample(opts, input);
    SamplesToUsecs(opts, Wrap(bytes as int * bytesPerSample as int), input)
  }

  /** bytes_to_usecs as intended: bytes / bytes-per-sample samples. */
  function BytesToUsecs(opts: Opts, bytes: U64, input: bool): Result<U64, Failure> {
    var bytesPerSample :- BytesPerSample(opts, input);
    if bytesPerSample == 0 then Err(DivisionByZero)
    else SamplesToUsecs(opts, Quotient(bytes, bytesPerSample), input)
  }

  /** With the defaults (16-bit stereo at 44100 Hz) the code as written
      treats every byte as a whole frame. */
  lemma BytesToUsecsAsWrittenCountsFrames(bytes: U64, input: bool)
    requires bytes as int * 1000000 < U64Limit / 4
    ensures BytesToUsecsAsWritten(map[], bytes, input) == FramesToUsecs(map[], bytes, input)
  {
    var doubled: nat := bytes as int * 2;
    WrapSmall(doubled);
    assert Quotient(doubled, 2) == bytes;
    assert BytesPerSample(map[], input) == Ok(2);
    assert SamplesToUsecs(map[], doubled, input) == FramesToUsecs(map[], bytes, input);
  }

  /** One second of default audio, 176400 bytes, comes out as four seconds
      from the code as written and as one second from the corrected
      conversion. */
  lemma OneSecondOfBytes(input: bool)
    ensures BytesToUsecsAsWritten(map[], 176400, input) == Ok(4000000)
    ensures BytesToUsecs(map[], 176400, input) == Ok(1000000)
  {
    BytesToUsecsAsWrittenCountsFrames(176400, input);
    WrapSmall(176400 * 1000000);
    WrapSmall(176400000000 + 44100 / 2);
    assert Quotient(176400022050, 44100) == 4000000;
    BytesToUsecsFrames(176400, input);
    WrapSmall(44100 * 1000000);
    WrapSmall(44100000000 + 44100 / 2);
    assert Quotient(44100022050, 44100) == 1000000;
  }

  /** With the defaults a frame is four bytes: the corrected conversion
      drops a partial frame and rounds the rest to the nearest
      microsecond. */
  lemma BytesToUsecsFrames(bytes: U64, input: bool)
    requires bytes as int * 1000000 < U64Limit / 2
    ensures var r := BytesToUsecs(map[], bytes, input);
      && r.Ok?
      && r == FramesToUsecs(map[], bytes as int / 4, input)
      && NearestQuotient(r.value, (bytes as int / 4) * 1000000, 44100)
  {
    var frames: nat := bytes as int / 4;
    assert Quotient(Quotient(bytes, 2), 2) == frames;
    FramesToUsecsRounds(map[], frames, input);
  }

  /** The format names the FMT transform stores are not bit counts: once
      a format option is set, bytes_to_usecs cannot read it. */
  lemma FormatNameIsNoBitCount(opts: Opts, bytes: U64, input: bool, name: string)
    requires name in Formats
    ensures BytesToUsecs(opts[FormatOption(input) := name], bytes, input) == Err(InvalidInteger(name))
    ensures BytesToUsecsAsWritten(opts[FormatOption(input) := name], bytes, input) == Err(InvalidInteger(name))
  {
    assert !IsDigit(name[0]);
  }

  // ---------------------------------------------------------------------
  // Value transforms

  /** The C locale's tolower. */
  function AsciiLower(c: char): char {
    if 'A' <= c <= 'Z' then (c as int - 'A' as int + 'a' as int) as char else c
  }

  /** strcasecmp(a, b) == 0. */
  predicate SameIgnoringCase(a: string, b: string) {
    |a| == |b| && forall i :: 0 <= i < |a| ==> AsciiLower(a[i]) == AsciiLower(b[i])
  }

  /** The sample formats the FMT transform knows, in the order it tries them. */
  const Formats: seq<string> := ["u8", "u16", "u32", "s8", "s16", "s32"]

  /** The FMT transform: the first known format equal to the value up to
      case, in its lower-case spelling. */
  function FormatName(val: string): Result<string, Failure> {
    if SameIgnoringCase(val, "u8") then Ok("u8")
    else if SameIgnoringCase(val, "u16") then Ok("u16")
    else if SameIgnoringCase(val, "u32") then Ok("u32")
    else if SameIgnoringCase(val, "s8") then Ok("s8")
    else if SameIgnoringCase(val, "s16") then Ok("s16")
    else if SameIgnoringCase(val, "s32") then Ok("s32")
    else Err(InvalidFormat(val))
  }

  /** transform_val: the option value an environment value becomes. */
  function TransformVal(opts: Opts, val: string, t: EnvTransform): Result<string, Failure> {
    match t
    case TransformNone => Ok(val)
    case TransformBool =>
      var n :- Toull(val);
      Ok(if n != 0 then "on" else "off")
    case TransformFmt => FormatName(val)
    case FramesToUsecsIn =>
      var n :- Toull(val);
      var u :- FramesToUsecs(opts, n, true);
      Ok(Tostr(u))
    case FramesToUsecsOut =>
      var n :- Toull(val);
      var u :- FramesToUsecs(opts, n, false);
      Ok(Tostr(u))
    case SamplesToUsecsIn =>
      var n :- Toull(val);
      var u :- SamplesToUsecs(opts, n, true);
      Ok(Tostr(u))
    case SamplesToUsecsOut =>
      var n :- Toull(val);
      var u :- SamplesToUsecs(opts, n, false);
      Ok(Tostr(u))
    case BytesToUsecsIn =>
      var n :- Toull(val);
      var u :- BytesToUsecsAsWritten(opts, n, true);
      Ok(Tostr(u))
    case BytesToUsecsOut =>
      var n :- Toull(val);
      var u :- BytesToUsecsAsWritten(opts, n, false);
      Ok(Tostr(u))
    case MillisToUsecs =>
      var n :- Toull(val);
      Ok(Tostr(Wrap(n as int * 1000)))
    case HzToUsecs =>
      var n :- Toull(val);
      if n == 0 then Err(DivisionByZero) else Ok(Tostr(Quotient(1000000, n)))
  }

  /** NONE passes the value through; BOOL accepts exactly what toull
      accepts and gives "on" for a nonzero number, "off" for zero. */
  lemma NoneAndBoolTransforms(opts: Opts, val: string)
    ensures TransformVal(opts, val, TransformNone) == Ok(val)
    ensures var r := TransformVal(opts, val, TransformBool);
      && (r.Ok? <==> Toull(val).Ok?)
      && (r.Err? ==> r.error == InvalidInteger(val))
      && (r.Ok? ==> (r.value == "on" <==> Toull(val).value != 0) && (r.value == "off" <==> Toull(val).value == 0))
  {
  }

  lemma LowerIdempotent(c: char)
    ensures AsciiLower(AsciiLower(c)) == AsciiLower(c)
  {
  }

  /** FMT accepts a value exactly when it matches a known format up to
      case, returns that format in lower case, and fails with the value
      otherwise. */
  lemma FormatNameMatches(opts: Opts, val: string)
    ensures var r := TransformVal(opts, val, TransformFmt);
      && (r.Ok? <==> exists i :: 0 <= i < |Formats| && SameIgnoringCase(val, Formats[i]))
      && (r.Ok? ==> r.value in Formats && SameIgnoringCase(val, r.value))
      && (r.Err? ==> r.error == InvalidFormat(val))
  {
    var r := TransformVal(opts, val, TransformFmt);
    if r.Ok? {
      assert r.value in Formats;
      var i :| 0 <= i < |Formats| && Formats[i] == r.value;
      assert SameIgnoringCase(val, Formats[i]);
    }
  }

  /** FMT is idempotent: a normalised format name is kept as it is. */
  lemma FormatNameIdempotent(opts: Opts, val: string)
    ensures var r := TransformVal(opts, val, TransformFmt);
      r.Ok? ==> TransformVal(opts, r.value, TransformFmt) == r
  {
  }

  /** MILLIS: a number of milliseconds becomes a thousand times as many
      microseconds, as long as that fits in 64 bits. */
  lemma MillisTransform(opts: Opts, val: string)
    ensures var r := TransformVal(opts, val, MillisToUsecs);
      && (r.Ok? <==> Toull(val).Ok?)
      && (r.Ok? && Toull(val).value as int * 1000 < U64Limit ==>
            Toull(r.value) == Ok(Toull(val).value as int * 1000))
  {
    var r := TransformVal(opts, val, MillisToUsecs);
    if r.Ok? {
      var n: nat := Toull(val).value;
      var w := Wrap(n * 1000);
      assert r.value == Tostr(w);
      ToullOfTostr(w);
      if n * 1000 < U64Limit {
        WrapSmall(n * 1000);
      }
    }
  }

  /** HZ: a rate becomes its period in whole microseconds, rounded down; a
      zero rate is a division by zero. */
  lemma HzTransform(opts: Opts, val: string)
    ensures var r := TransformVal(opts, val, HzToUsecs);
      && (Toull(val) == Ok(0) ==> r == Err(DivisionByZero))
      && (r.Ok? <==> Toull(val).Ok? && Toull(val).value != 0)
      && (r.Ok? ==> var hz: int := Toull(val).value; var p := Toull(r.value);
            p.Ok? && p.value as int * hz <= 1000000 < (p.value as int + 1) * hz)
  {
    var r := TransformVal(opts, val, HzToUsecs);
    if r.Ok? {
      var hz: nat := Toull(val).value;
      var p := Quotient(1000000, hz);
      ToullOfTostr(p);
      QuotientBound(1000000, hz);
    }
  }

  /** The transforms that read no option. */
  predicate ContextFree(t: EnvTransform) {
    t.TransformNone? || t.TransformBool? || t.TransformFmt? || t.MillisToUsecs? || t.HzToUsecs?
  }

  /** The BYTES_TO_USECS transforms run bytes_to_usecs as written: they
      accept a value exactly when toull and the conversion both do, and
      store the conversion's result, so one second of default audio given
      as 176400 bytes is stored as four seconds. */
  lemma BytesTransformAsWritten(opts: Opts, val: string, input: bool)
    ensures var r := TransformVal(opts, val, if input then BytesToUsecsIn else BytesToUsecsOut);
      && (r.Ok? <==> Toull(val).Ok? && BytesToUsecsAsWritten(opts, Toull(val).value, input).Ok?)
      && (r.Ok? ==> Toull(r.value) == BytesToUsecsAsWritten(opts, Toull(val).value, input))
    ensures TransformVal(map[], Tostr(176400), if input then BytesToUsecsIn else BytesToUsecsOut) == Ok(Tostr(4000000))
  {
    var r := TransformVal(opts, val, if input then BytesToUsecsIn else BytesToUsecsOut);
    if r.Ok? {
      ToullOfTostr(BytesToUsecsAsWritten(opts, Toull(val).value, input).value);
    }
    ToullOfTostr(176400);
    OneSecondOfBytes(input);
  }

  /** A context-free transform gives the same value whatever options are
      already set; FRAMES_TO_USECS does not. */
  lemma ContextFreeTransforms(o1: Opts, o2: Opts, val: string, t: EnvTransform)
    requires ContextFree(t)
    ensures TransformVal(o1, val, t) == TransformVal(o2, val, t)
  {
  }

  /** FRAMES_TO_USECS reads the frequency an earlier entry may have set:
      100 frames are 2268 us at the default 44100 Hz, 100000 us at 1000 Hz. */
  lemma FramesTransformReadsFrequency()
    ensures TransformVal(map[], "100", FramesToUsecsOut) == Ok(Tostr(2268))
    ensures TransformVal(map["out.frequency" := "1000"], "100", FramesToUsecsOut) == Ok(Tostr(100000))
    ensures Tostr(2268) != Tostr(100000)
  {
    assert Toull("100") == Ok(100) by {
      assert Render(100) == "100";
      ToullOfTostr(100);
    }
    assert FramesToUsecs(map[], 100, false) == Ok(2268) by {
      FramesAtDefault();
    }
    assert FramesToUsecs(map["out.frequency" := "1000"], 100, false) == Ok(100000) by {
      FramesAt1000();
    }
    ToullOfTostr(2268);
    ToullOfTostr(100000);
  }

  lemma FramesAtDefault()
    ensures FramesToUsecs(map[], 100, false) == Ok(2268)
  {
    WrapSmall(100 * 1000000);
    WrapSmall(100000000 + 44100 / 2);
    assert Quotient(100022050, 44100) == 2268;
  }

  lemma FramesAt1000()
    ensures FramesToUsecs(map["out.frequency" := "1000"], 100, false) == Ok(100000)
  {
    assert Toull("1000") == Ok(1000) by {
      assert Render(1000) == "1000";
      ToullOfTostr(1000);
    }
    WrapSmall(100 * 1000000);
    WrapSmall(100000000 + 1000 / 2);
    assert Quotient(100000500, 1000) == 100000;
  }

  // ---------------------------------------------------------------------
  // The map walk

  /** handle_env_opts: each entry up to the terminator whose variable is
      set stores its transformed value under its option, in map order; a
      failed transform stops the walk. */
  function HandleEnvOpts(opts: Opts, env: Env, m: seq<MapSlot>): Result<Opts, Failure>
    decreases |m|
  {
    if m == [] || m[0].EndOfList? then Ok(opts)
    else if m[0].name in env then
      var v :- TransformVal(opts, env[m[0].name], m[0].transform);
      HandleEnvOpts(opts[m[0].option := v], env, m[1..])
    else HandleEnvOpts(opts, env, m[1..])
  }

  /** The options of the entries before the terminator whose variable is set. */
  function SetOptions(env: Env, m: seq<MapSlot>): set<string>
    decreases |m|
  {
    if m == [] || m[0].EndOfList? then {}
    else (if m[0].name in env then {m[0].option} else {}) + SetOptions(env, m[1..])
  }

  /** Slot i is reached: no terminator comes before it. */
  predicate Reached(m: seq<MapSlot>, i: int) {
    0 <= i < |m| && forall k :: 0 <= k <= i ==> m[k].Entry?
  }

  /** The walk adds exactly the options of the variables that are set and
      leaves every other option as it was. */
  lemma {:induction false} HandleEnvOptsFrame(opts: Opts, env: Env, m: seq<MapSlot>)
    ensures var r := HandleEnvOpts(opts, env, m);
      r.Ok? ==>
        && r.value.Keys == opts.Keys + SetOptions(env, m)
        && forall k :: k in opts && k !in SetOptions(env, m) ==> r.value[k] == opts[k]
    decreases |m|
  {
    if m != [] && m[0].Entry? {
      if m[0].name in env {
        var v := TransformVal(opts, env[m[0].name], m[0].transform);
        if v.Ok? {
          HandleEnvOptsFrame(opts[m[0].option := v.value], env, m[1..]);
        }
      } else {
        HandleEnvOptsFrame(opts, env, m[1..]);
      }
    }
  }

  /** With none of the map's variables set, nothing changes. */
  lemma {:induction false} HandleEnvOptsUnset(opts: Opts, env: Env, m: seq<MapSlot>)
    requires forall i :: 0 <= i < |m| && m[i].Entry? ==> m[i].name !in env
    ensures HandleEnvOpts(opts, env, m) == Ok(opts)
    decreases |m|
  {
    if m != [] && m[0].Entry? {
      assert m[0].name !in env;
      HandleEnvOptsUnset(opts, env, m[1..]);
    }
  }

  /** An option no entry names is never set. */
  lemma {:induction false} NotNamedNotSet(env: Env, m: seq<MapSlot>, key: string)
    requires forall i :: 0 <= i < |m| && m[i].Entry? ==> m[i].option != key
    ensures key !in SetOptions(env, m)
    decreases |m|
  {
    if m != [] && m[0].Entry? {
      assert m[0].option != key;
      NotNamedNotSet(env, m[1..], key);
    }
  }

  /** Distinct options and transforms that read no option. */
  predicate WellFormedMap(m: seq<MapSlot>) {
    && (forall i :: 0 <= i < |m| && m[i].Entry? ==> ContextFree(m[i].transform))
    && (forall i, j :: 0 <= i < j < |m| && m[i].Entry? && m[j].Entry? ==> m[i].option != m[j].option)
  }

  /** In a well-formed map, a reached entry whose variable is set ends up
      holding its transformed value, and the walk succeeds exactly when
      every such transform does. */
  lemma {:induction false} HandleEnvOptsSets(opts: Opts, env: Env, m: seq<MapSlot>)
    requires WellFormedMap(m)
    ensures var r := HandleEnvOpts(opts, env, m);
      && (r.Ok? <==> forall i :: Reached(m, i) && m[i].name in env ==> TransformVal(opts, env[m[i].name], m[i].transform).Ok?)
      && (r.Ok? ==> forall i :: Reached(m, i) && m[i].name in env ==>
            m[i].option in r.value && r.value[m[i].option] == TransformVal(opts, env[m[i].name], m[i].transform).value)
    decreases |m|
  {
    if m == [] || m[0].EndOfList? {
      return;
    }
    var e := m[0];
    var tail := m[1..];
    assert WellFormedMap(tail) by {
      forall i | 0 <= i < |tail| && tail[i].Entry? ensures ContextFree(tail[i].transform) {
        assert tail[i] == m[i + 1];
      }
      forall i, j | 0 <= i < j < |tail| && tail[i].Entry? && tail[j].Entry? ensures tail[i].option != tail[j].option {
        assert tail[i] == m[i + 1] && tail[j] == m[j + 1];
      }
    }
    forall i | Reached(tail, i) ensures Reached(m, i + 1) && m[i + 1] == tail[i] {
      assert forall k :: 0 <= k <= i ==> tail[k] == m[k + 1];
    }
    forall i | Reached(m, i) && i > 0 ensures Reached(tail, i - 1) && tail[i - 1] == m[i] {
    }
    var next := opts;
    if e.name in env {
      var v := TransformVal(opts, env[e.name], e.transform);
      if v.Err? {
        assert Reached(m, 0);
        return;
      }
      next := opts[e.option := v.value];
      NotNamedNotSet(env, tail, e.option) by {
        forall i | 0 <= i < |tail| && tail[i].Entry? ensures tail[i].option != e.option {
          assert tail[i] == m[i + 1];
        }
      }
      HandleEnvOptsFrame(next, env, tail);
    }
    HandleEnvOptsSets(next, env, tail);
    forall i | 0 <= i < |tail| && tail[i].Entry? && tail[i].name in env
      ensures TransformVal(next, env[tail[i].name], tail[i].transform) == TransformVal(opts, env[tail[i].name], tail[i].transform)
    {
      assert tail[i] == m[i + 1];
      assert ContextFree(tail[i].transform);
      ContextFreeTransforms(next, opts, env[tail[i].name], tail[i].transform);
    }
  }

  /** global_map: five DAC settings, five ADC settings and the timer
      period, then the terminator.  Entries written without a transform
      have ENV_TRANSFORM_NONE. */
  const GlobalMap: seq<MapSlot> := [
    Entry("QEMU_AUDIO_DAC_FIXED_SETTINGS", "out.fixed-settings", TransformBool),
    Entry("QEMU_AUDIO_DAC_FIXED_FREQ", "out.frequency", TransformNone),
    Entry("QEMU_AUDIO_DAC_FIXED_FMT", "out.format", TransformFmt),
    Entry("QEMU_AUDIO_DAC_FIXED_CHANNELS", "out.channels", TransformNone),
    Entry("QEMU_AUDIO_DAC_VOICES", "out.voices", TransformNone),
    Entry("QEMU_AUDIO_ADC_FIXED_SETTINGS", "in.fixed-settings", TransformBool),
    Entry("QEMU_AUDIO_ADC_FIXED_FREQ", "in.frequency", TransformNone),
    Entry("QEMU_AUDIO_ADC_FIXED_FMT", "in.format", TransformFmt),
    Entry("QEMU_AUDIO_ADC_FIXED_CHANNELS", "in.channels", TransformNone),
    Entry("QEMU_AUDIO_ADC_VOICES", "in.voices", TransformNone),
    Entry("QEMU_AUDIO_TIMER_PERIOD", "timer-period", HzToUsecs),
    EndOfList
  ]

  /** global_map has eleven entries before its terminator, ending with the
      timer period in HZ_TO_USECS, and is well formed. */
  lemma GlobalMapShape()
    ensures |GlobalMap| == 12 && GlobalMap[11] == EndOfList
    ensures forall i :: 0 <= i < 11 ==> Reached(GlobalMap, i)
    ensures GlobalMap[10] == Entry("QEMU_AUDIO_TIMER_PERIOD", "timer-period", HzToUsecs)
    ensures WellFormedMap(GlobalMap)
  {
    forall i | 0 <= i < 11 ensures Reached(GlobalMap, i) {
      assert forall k :: 0 <= k < 11 ==> GlobalMap[k].Entry?;
    }
  }

  /** legacy_opt: a new option group with id drv whose "driver" is drv,
      filled from the environment through global_map.  `created` says
      whether qemu_opts_create accepts drv as a new audiodev id; when it
      does not, &error_abort aborts before the walk starts. */
  function LegacyOpt(drv: string, env: Env, created: bool): Result<Opts, Failure> {
    if !created then Err(CreateAborted(drv))
    else HandleEnvOpts(map["driver" := drv], env, GlobalMap)
  }

  /** A refused id aborts; otherwise the driver survives the walk, each of
      global_map's variables that is set becomes its option's transformed
      value, and the walk fails exactly when one of those transforms
      does. */
  lemma LegacyOptEffect(drv: string, env: Env, created: bool)
    ensures !created ==> LegacyOpt(drv, env, created) == Err(CreateAborted(drv))
    ensures var r := LegacyOpt(drv, env, created);
      && (r.Ok? <==> created && forall i :: Reached(GlobalMap, i) && GlobalMap[i].name in env ==>
            TransformVal(map[], env[GlobalMap[i].name], GlobalMap[i].transform).Ok?)
      && (r.Ok? ==> "driver" in r.value && r.value["driver"] == drv)
      && (r.Ok? ==> forall i :: Reached(GlobalMap, i) && GlobalMap[i].name in env ==>
            GlobalMap[i].option in r.value
            && r.value[GlobalMap[i].option] == TransformVal(map[], env[GlobalMap[i].name], GlobalMap[i].transform).value)
  {
    if created {
      GlobalMapShape();
      assert forall i :: 0 <= i < |GlobalMap| && GlobalMap[i].Entry? ==> GlobalMap[i].option != "driver";
      WalkFromDriver(drv, env, GlobalMap);
    }
  }

  /** The walk legacy_opt starts, over any well-formed map that does not
      name "driver". */
  lemma WalkFromDriver(drv: string, env: Env, m: seq<MapSlot>)
    requires WellFormedMap(m)
    requires forall i :: 0 <= i < |m| && m[i].Entry? ==> m[i].option != "driver"
    ensures var r := HandleEnvOpts(map["driver" := drv], env, m);
      && (r.Ok? <==> forall i :: Reached(m, i) && m[i].name in env ==>
            TransformVal(map[], env[m[i].name], m[i].transform).Ok?)
      && (r.Ok? ==> "driver" in r.value && r.value["driver"] == drv)
      && (r.Ok? ==> forall i :: Reached(m, i) && m[i].name in env ==>
            m[i].option in r.value && r.value[m[i].option] == TransformVal(map[], env[m[i].name], m[i].transform).value)
  {
    var opts: Opts := map["driver" := drv];
    HandleEnvOptsSets(opts, env, m);
    HandleEnvOptsFrame(opts, env, m);
    NotNamedNotSet(env, m, "driver");
    forall i | Reached(m, i) && m[i].name in env
      ensures TransformVal(opts, env[m[i].name], m[i].transform) == TransformVal(map[], env[m[i].name], m[i].transform)
    {
      ContextFreeTransforms(opts, map[], env[m[i].name], m[i].transform);
    }
  }
}
