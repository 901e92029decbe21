/** `codec_private` of remote/src/matroska.rs: the decoder configuration read out of a keyframe's parameter sets. */
module ParameterSets {
  import opened Bytes
  import opened AnnexB
  import opened Rbsp
  import opened BitReader

  datatype Codec = H264 | H265

  // ---- Reading the fields, on bit sequences -------------------------------

  /** What was read before, in front of what is read next. */
  function Prepend<T>(read: seq<T>, p: Parsed<seq<T>>): Parsed<seq<T>> {
    match p
    case Fail => Fail
    case Done(v, rest) => Done(read + v, rest)
  }

  lemma PrependNothing<T>(p: Parsed<seq<T>>)
    ensures Prepend([], p) == p
  {
    if p.Done? {
      assert [] + p.value == p.value;
    }
  }

  lemma PrependTwice<T>(a: seq<T>, b: seq<T>, p: Parsed<seq<T>>)
    ensures Prepend(a, Prepend(b, p)) == Prepend(a + b, p)
  {
    if p.Done? {
      Assoc(a, b, p.value);
    }
  }

  /** `read(8)` `n` times, each kept as a byte. */
  function TakeBytes(bits: seq<Bit>, n: nat): Parsed<seq<Byte>> {
    if n == 0 then Done([], bits)
    else
      var (v, rest) :- Take(bits, 8);
      Prepend([(v % 256) as Byte], TakeBytes(rest, n - 1))
  }

  /** A sub-layer's two presence flags. */
  datatype Flags = Flags(profile: nat, level: nat)

  function TakeFlags(bits: seq<Bit>, n: nat): Parsed<seq<Flags>> {
    if n == 0 then Done([], bits)
    else
      var (profile, rest) :- Take(bits, 1);
      var (level, rest') :- Take(rest, 1);
      Prepend([Flags(profile, level)], TakeFlags(rest', n - 1))
  }

  function SkipPairs(bits: seq<Bit>, n: nat): Parsed<()> {
    if n == 0 then Done((), bits)
    else
      var (_, rest) :- Take(bits, 2);
      SkipPairs(rest, n - 1)
  }

  function TakeIf(present: bool, bits: seq<Bit>, count: nat): Parsed<nat> {
    if present then Take(bits, count) else Done(0, bits)
  }

  function SkipLayers(bits: seq<Bit>, flags: seq<Flags>): Parsed<()>
    decreases |flags|
  {
    if flags == [] then Done((), bits)
    else
      var (_, rest) :- TakeBytes(bits, if flags[0].profile != 0 then 11 else 0);
      var (_, rest') :- TakeIf(flags[0].level != 0, rest, 8);
      SkipLayers(rest', flags[1..])
  }

  function SkipUes(bits: seq<Bit>, n: nat): Parsed<()>
    decreases n
  {
    if n == 0 then Done((), bits)
    else
      var (_, rest) :- Ue(bits);
      SkipUes(rest, n - 1)
  }

  datatype Depths = Depths(chroma: nat, luma: nat, chromaDepth: nat)

  /** The two bit depths, both at most 7. */
  function TakeDepths(bits: seq<Bit>, chroma: nat): Parsed<Depths> {
    var (luma, rest) :- Ue(bits);
    var (chromaDepth, rest') :- Ue(rest);
    if luma <= 7 && chromaDepth <= 7 then Done(Depths(chroma, luma, chromaDepth), rest') else Fail
  }

  /** The parameter set ID and the chroma format, at most 3. */
  function TakeChroma(bits: seq<Bit>): Parsed<nat> {
    var (_, rest) :- Ue(bits);
    var (chroma, rest') :- Ue(rest);
    if chroma > 3 then Fail
    else
      var (_, rest'') :- TakeIf(chroma == 3, rest', 1);
      Done(chroma, rest'')
  }

  function AvcFields(bits: seq<Bit>): Parsed<Depths> {
    var (chroma, rest) :- TakeChroma(bits);
    TakeDepths(rest, chroma)
  }

  datatype Tier = Tier(sublayers: nat, nested: nat, general: seq<Byte>)

  /** The start of an HEVC parameter set: everything up to its own ID. */
  function HevcTier(bits: seq<Bit>): Parsed<Tier> {
    var (_, b1) :- Take(bits, 4);
    var (sublayers, b2) :- Take(b1, 3);
    var (nested, b3) :- Take(b2, 1);
    var (general, b4) :- TakeBytes(b3, 12);
    var (flags, b5) :- TakeFlags(b4, sublayers);
    var (_, b6) :- SkipPairs(b5, if 0 < sublayers <= 8 then 8 - sublayers else 0);
    var (_, b7) :- SkipLayers(b6, flags);
    Done(Tier(sublayers, nested, general), b7)
  }

  function HevcDepths(bits: seq<Bit>): Parsed<Depths> {
    var (chroma, b1) :- TakeChroma(bits);
    var (_, b2) :- SkipUes(b1, 2);
    var (window, b3) :- Take(b2, 1);
    var (_, b4) :- SkipUes(b3, if window != 0 then 4 else 0);
    TakeDepths(b4, chroma)
  }

  // ---- The record ---------------------------------------------------------

  function Kind(codec: Codec, nal: Nal): nat
    requires nal != []
  {
    match codec
    case H264 => nal[0] as nat % 32
    case H265 => nal[0] as nat / 2 % 64
  }

  /** The first unit of a kind. */
  function Parameter(codec: Codec, units: seq<Nal>, kind: nat): (r: Result<Nal>)
    requires forall nal :: nal in units ==> nal != []
    ensures r.Ok? ==> r.value in units && r.value != [] && Kind(codec, r.value) == kind
    ensures r.Err? ==> forall nal :: nal in units && nal != [] ==> Kind(codec, nal) != kind
  {
    if units == [] then Err
    else
      assert units[0] in units && forall nal :: nal in units[1..] ==> nal in units;
      if Kind(codec, units[0]) == kind then Ok(units[0])
      else Parameter(codec, units[1..], kind)
  }

  /** It is the first of its kind. */
  lemma {:induction false} ParameterIsFirst(codec: Codec, units: seq<Nal>, kind: nat) returns (i: nat)
    requires (forall nal :: nal in units ==> nal != []) && Parameter(codec, units, kind).Ok?
    ensures i < |units| && units[i] == Parameter(codec, units, kind).value
    ensures forall j :: 0 <= j < i ==> units[j] in units && Kind(codec, units[j]) != kind
    decreases |units|
  {
    assert units[0] in units && forall nal :: nal in units[1..] ==> nal in units;
    if Kind(codec, units[0]) == kind {
      return 0;
    }
    i := ParameterIsFirst(codec, units[1..], kind);
    i := i + 1;
    forall j | 0 <= j < i ensures units[j] in units && Kind(codec, units[j]) != kind {
      assert j > 0 ==> units[j] == units[1..][j - 1];
    }
  }

  /** A unit after its 16-bit length. */
  function Sized(nal: Nal): Result<seq<Byte>> {
    if |nal| < 0x1_0000 then Ok(ToBytes(|nal|, 2) + nal) else Err
  }

  const HIGH_PROFILES: set<Byte> := {100, 110, 122, 144, 44, 83, 86, 118, 128, 138, 139, 134, 135}

  function AvcDepths(d: Depths): seq<Byte>
    requires d.chroma <= 3 && d.luma <= 7 && d.chromaDepth <= 7
  {
    [(0xfc + d.chroma) as Byte, (0xf8 + d.luma) as Byte, (0xf8 + d.chromaDepth) as Byte, 0]
  }

  /** The AVC decoder configuration record. */
  function AvcRecord(sps: Nal, pps: Nal): Result<seq<Byte>> {
    if |sps| < 4 then Err
    else
      var sizedSps :- Sized(sps);
      var sizedPps :- Sized(pps);
      var out := [1, sps[1], sps[2], sps[3], 0xff, 0xe1] + sizedSps + [1] + sizedPps;
      if sps[1] !in HIGH_PROFILES then Ok(out)
      else
        match AvcFields(BitsOf(Unescape(sps[4..])))
        case Fail => Err
        case Done(d, _) => AvcFieldsBound(BitsOf(Unescape(sps[4..]))); Ok(out + AvcDepths(d))
  }

  lemma AvcFieldsBound(bits: seq<Bit>)
    ensures var p := AvcFields(bits);
            p.Done? ==> p.value.chroma <= 3 && p.value.luma <= 7 && p.value.chromaDepth <= 7
  {
  }

  lemma HevcDepthsBound(bits: seq<Bit>)
    ensures var p := HevcDepths(bits);
            p.Done? ==> p.value.chroma <= 3 && p.value.luma <= 7 && p.value.chromaDepth <= 7
  {
  }

  function HevcFixedPart(t: Tier, d: Depths): seq<Byte>
    requires d.chroma <= 3 && d.luma <= 7 && d.chromaDepth <= 7
  {
    [1] + t.general
    + [0xf0, 0, 0xfc, (0xfc + d.chroma) as Byte, (0xf8 + d.luma) as Byte, (0xf8 + d.chromaDepth) as Byte, 0, 0,
       (((t.sublayers + 1) * 8 + t.nested * 4 + 3) % 256) as Byte, 3]
  }

  /** The HEVC decoder configuration record. */
  function HevcRecord(vps: Nal, sps: Nal, pps: Nal): Result<seq<Byte>> {
    if |sps| < 3 then Err
    else
      var bits := BitsOf(Unescape(sps[2..]));
      match HevcTier(bits)
      case Fail => Err
      case Done(tier, rest) =>
        match HevcDepths(rest)
        case Fail => Err
        case Done(d, _) =>
          HevcDepthsBound(rest);
          var sizedVps :- Sized(vps);
          var sizedSps :- Sized(sps);
          var sizedPps :- Sized(pps);
          Ok(HevcFixedPart(tier, d) + [0x80 + 32, 0, 1] + sizedVps + [0x80 + 33, 0, 1] + sizedSps
             + [0x80 + 34, 0, 1] + sizedPps)
  }

  function RecordOf(codec: Codec, units: seq<Nal>): Result<seq<Byte>>
    requires forall nal :: nal in units ==> nal != []
  {
    match codec
    case H264 =>
      var sps :- Parameter(codec, units, 7);
      var pps :- Parameter(codec, units, 8);
      AvcRecord(sps, pps)
    case H265 =>
      var vps :- Parameter(codec, units, 32);
      var sps :- Parameter(codec, units, 33);
      var pps :- Parameter(codec, units, 34);
      HevcRecord(vps, sps, pps)
  }

  /** What `codec_private` returns for a keyframe's bytes. */
  function CodecPrivateOf(codec: Codec, data: seq<Byte>): Result<seq<Byte>> {
    UnitsWellFormed(data);
    RecordOf(codec, Units(data))
  }

  lemma {:induction false} TakeBytesLength(bits: seq<Bit>, n: nat)
    ensures TakeBytes(bits, n).Done? ==> |TakeBytes(bits, n).value| == n
    decreases n
  {
    hide Take;
    if n > 0 && Take(bits, 8).Done? {
      TakeBytesLength(Take(bits, 8).rest, n - 1);
    }
  }

  /** Records are small: their parts have 16-bit lengths. */
  lemma PrivateLength(codec: Codec, data: seq<Byte>)
    ensures CodecPrivateOf(codec, data).Ok? ==> |CodecPrivateOf(codec, data).value| <= 0x4_0000
  {
    hide Units, Parameter, AvcFields, HevcDepths, BitsOf, Unescape, TakeFlags, SkipPairs, SkipLayers, TakeBytes, Take;
    forall bits ensures TakeBytes(bits, 12).Done? ==> |TakeBytes(bits, 12).value| == 12 {
      TakeBytesLength(bits, 12);
    }
  }

  // ---- The source's loops -------------------------------------------------

  method ReadBytes(bits: Bits, n: nat) returns (r: Result<seq<Byte>>)
    requires bits.Valid()
    modifies bits
    ensures bits.Valid()
    ensures match TakeBytes(old(bits.Rest()), n)
            case Fail => r == Err
            case Done(v, rest) => r == Ok(v) && bits.Rest() == rest
  {
    hide Take;
    var out: seq<Byte> := [];
    ghost var start := bits.Rest();
    PrependNothing(TakeBytes(start, n));
    for i := 0 to n
      invariant bits.Valid()
      invariant TakeBytes(start, n) == Prepend(out, TakeBytes(bits.Rest(), n - i))
    {
      var v :- bits.Read(8);
      PrependTwice(out, [(v % 256) as Byte], TakeBytes(bits.Rest(), n - i - 1));
      out := out + [(v % 256) as Byte];
    }
    assert out + [] == out;
    return Ok(out);
  }

  method ReadFlags(bits: Bits, n: nat) returns (r: Result<seq<Flags>>)
    requires bits.Valid()
    modifies bits
    ensures bits.Valid()
    ensures match TakeFlags(old(bits.Rest()), n)
            case Fail => r == Err
            case Done(v, rest) => r == Ok(v) && bits.Rest() == rest
  {
    hide Take;
    var flags: seq<Flags> := [];
    ghost var start := bits.Rest();
    PrependNothing(TakeFlags(start, n));
    for i := 0 to n
      invariant bits.Valid()
      invariant TakeFlags(start, n) == Prepend(flags, TakeFlags(bits.Rest(), n - i))
    {
      var profile :- bits.Read(1);
      var level :- bits.Read(1);
      PrependTwice(flags, [Flags(profile, level)], TakeFlags(bits.Rest(), n - i - 1));
      flags := flags + [Flags(profile, level)];
    }
    assert flags + [] == flags;
    return Ok(flags);
  }

  method ReadPairs(bits: Bits, from: nat) returns (r: Result<()>)
    requires bits.Valid()
    modifies bits
    ensures bits.Valid()
    ensures match SkipPairs(old(bits.Rest()), if from <= 8 then 8 - from else 0)
            case Fail => r == Err
            case Done(_, rest) => r == Ok(()) && bits.Rest() == rest
  {
    hide Take;
    var i := from;
    ghost var start, n := bits.Rest(), if from <= 8 then 8 - from else 0;
    while i < 8
      invariant bits.Valid() && from <= i
      invariant SkipPairs(start, n) == SkipPairs(bits.Rest(), if i <= 8 then 8 - i else 0)
    {
      var _ :- bits.Read(2);
      i := i + 1;
    }
    return Ok(());
  }

  method ReadLayers(bits: Bits, flags: seq<Flags>) returns (r: Result<()>)
    requires bits.Valid()
    modifies bits
    ensures bits.Valid()
    ensures match SkipLayers(old(bits.Rest()), flags)
            case Fail => r == Err
            case Done(_, rest) => r == Ok(()) && bits.Rest() == rest
  {
    hide Take, TakeBytes;
    ghost var start := bits.Rest();
    for i := 0 to |flags|
      invariant bits.Valid()
      invariant SkipLayers(start, flags) == SkipLayers(bits.Rest(), flags[i..])
    {
      assert flags[i..][0] == flags[i] && flags[i..][1..] == flags[i + 1..];
      NoBytes(bits.Rest());
      if flags[i].profile != 0 {
        var _ :- ReadBytes(bits, 11);
      }
      if flags[i].level != 0 {
        var _ :- bits.Read(8);
      }
    }
    return Ok(());
  }

  lemma NoBytes(bits: seq<Bit>)
    ensures TakeBytes(bits, 0) == Done([], bits)
  {
  }

  method ReadUes(bits: Bits, n: nat) returns (r: Result<()>)
    requires bits.Valid()
    modifies bits
    ensures bits.Valid()
    ensures match SkipUes(old(bits.Rest()), n)
            case Fail => r == Err
            case Done(_, rest) => r == Ok(()) && bits.Rest() == rest
  {
    hide Ue;
    ghost var start := bits.Rest();
    for i := 0 to n
      invariant bits.Valid()
      invariant SkipUes(start, n) == SkipUes(bits.Rest(), n - i)
    {
      var _ :- bits.ReadUe();
    }
    return Ok(());
  }

  method ReadChroma(bits: Bits) returns (r: Result<nat>)
    requires bits.Valid()
    modifies bits
    ensures bits.Valid()
    ensures match TakeChroma(old(bits.Rest()))
            case Fail => r == Err
            case Done(v, rest) => r == Ok(v) && bits.Rest() == rest
  {
    hide Take, Ue;
    var _ :- bits.ReadUe();
    var chroma :- bits.ReadUe();
    if chroma > 3 {
      return Err;
    }
    if chroma == 3 {
      var _ :- bits.Read(1);
    }
    return Ok(chroma);
  }

  method ReadDepths(bits: Bits, chroma: nat) returns (r: Result<Depths>)
    requires bits.Valid()
    modifies bits
    ensures bits.Valid()
    ensures match TakeDepths(old(bits.Rest()), chroma)
            case Fail => r == Err
            case Done(v, rest) => r == Ok(v) && bits.Rest() == rest
  {
    hide Ue;
    var luma :- bits.ReadUe();
    var chromaDepth :- bits.ReadUe();
    if luma > 7 || chromaDepth > 7 {
      return Err;
    }
    return Ok(Depths(chroma, luma, chromaDepth));
  }

  method ReadTier(bits: Bits) returns (r: Result<Tier>)
    requires bits.Valid()
    modifies bits
    ensures bits.Valid()
    ensures match HevcTier(old(bits.Rest()))
            case Fail => r == Err
            case Done(v, rest) => r == Ok(v) && bits.Rest() == rest
  {
    hide Take, TakeBytes, TakeFlags, SkipPairs, SkipLayers;
    var _ :- bits.Read(4);
    var sublayers :- bits.Read(3);
    var nested :- bits.Read(1);
    var general :- ReadBytes(bits, 12);
    var flags :- ReadFlags(bits, sublayers);
    NoPairs(bits.Rest());
    if sublayers > 0 {
      var _ :- ReadPairs(bits, sublayers);
    }
    var _ :- ReadLayers(bits, flags);
    return Ok(Tier(sublayers, nested, general));
  }

  lemma NoPairs(bits: seq<Bit>)
    ensures SkipPairs(bits, 0) == Done((), bits)
  {
  }

  method ReadHevcDepths(bits: Bits) returns (r: Result<Depths>)
    requires bits.Valid()
    modifies bits
    ensures bits.Valid()
    ensures match HevcDepths(old(bits.Rest()))
            case Fail => r == Err
            case Done(v, rest) => r == Ok(v) && bits.Rest() == rest
  {
    hide Take, Ue, SkipUes, TakeChroma, TakeDepths;
    var chroma :- ReadChroma(bits);
    var _ :- ReadUes(bits, 2);
    var window :- bits.Read(1);
    NoUes(bits.Rest());
    if window != 0 {
      var _ :- ReadUes(bits, 4);
    }
    r := ReadDepths(bits, chroma);
  }

  lemma NoUes(bits: seq<Bit>)
    ensures SkipUes(bits, 0) == Done((), bits)
  {
  }

  /** `codec_private`. */
  method CodecPrivate(codec: Codec, data: seq<Byte>) returns (r: Result<seq<Byte>>)
    ensures r == CodecPrivateOf(codec, data)
  {
    hide AvcFields, HevcTier, HevcDepths, BitsOf, Unescape, Sized, HevcFixedPart, AvcDepths, Units, Parameter;
    var units := AnnexBUnits(data);
    UnitsWellFormed(data);
    match codec
    case H264 =>
      var sps :- Parameter(codec, units, 7);
      var pps :- Parameter(codec, units, 8);
      r := AvcPrivate(sps, pps);
    case H265 =>
      var vps :- Parameter(codec, units, 32);
      var sps :- Parameter(codec, units, 33);
      var pps :- Parameter(codec, units, 34);
      r := HevcPrivate(vps, sps, pps);
  }

  method AvcPrivate(sps: Nal, pps: Nal) returns (r: Result<seq<Byte>>)
    ensures r == AvcRecord(sps, pps)
  {
    hide TakeChroma, TakeDepths, BitsOf, Unescape, Sized;
    if |sps| < 4 {
      return Err;
    }
    var out := [1, sps[1], sps[2], sps[3], 0xff, 0xe1];
    var sizedSps :- Sized(sps);
    out := out + sizedSps;
    out := out + [1];
    var sizedPps :- Sized(pps);
    out := out + sizedPps;
    if sps[1] in HIGH_PROFILES {
      var bits := new Bits(sps[4..]);
      AvcFieldsBound(bits.Rest());
      var chroma :- ReadChroma(bits);
      var d :- ReadDepths(bits, chroma);
      out := out + AvcDepths(d);
    }
    return Ok(out);
  }

  method HevcPrivate(vps: Nal, sps: Nal, pps: Nal) returns (r: Result<seq<Byte>>)
    ensures r == HevcRecord(vps, sps, pps)
  {
    hide HevcTier, HevcDepths, BitsOf, Unescape, Sized;
    if |sps| < 3 {
      return Err;
    }
    var bits := new Bits(sps[2..]);
    var tier :- ReadTier(bits);
    HevcDepthsBound(bits.Rest());
    var d :- ReadHevcDepths(bits);
    var out := HevcFixedPart(tier, d);
    var sizedVps :- Sized(vps);
    out := out + [0x80 + 32, 0, 1] + sizedVps;
    var sizedSps :- Sized(sps);
    out := out + [0x80 + 33, 0, 1] + sizedSps;
    var sizedPps :- Sized(pps);
    out := out + [0x80 + 34, 0, 1] + sizedPps;
    return Ok(out);
  }
}
