/**
 Readers of the decoder configuration records of ISO/IEC 14496-15 (sections
 5.3.3.1 for AVC and 8.3.3.1 for HEVC), and what they find in the records that
 `codec_private` of remote/src/matroska.rs writes.
 */
module DecoderConfig {
  import opened Bytes
  import opened AnnexB
  import opened Rbsp
  import opened BitReader
  import opened ParameterSets
  import opened SpsSyntax
  import opened AvcEscapes

  // ---- Reading ------------------------------------------------------------

  /** `count` units, each after its 16-bit length. */
  function ReadNals(s: seq<Byte>, count: nat): Option<(seq<Nal>, seq<Byte>)>
    decreases count
  {
    if count == 0 then Some(([], s))
    else if |s| < 2 || |s| < 2 + FromBytes(s[..2]) then None
    else
      var end := 2 + FromBytes(s[..2]);
      match ReadNals(s[end..], count - 1)
      case None => None
      case Some((nals, rest)) => Some(([s[2..end]] + nals, rest))
  }

  datatype AvcConfig = AvcConfig(
    profile: Byte, compatibility: Byte, level: Byte, lengthSize: nat, spss: seq<Nal>, ppss: seq<Nal>, depths: Option<Depths>)

  /** The fields after the parameter sets, when there are any; reserved bits are ones. */
  function ReadAvcEnd(s: seq<Byte>): Option<Option<Depths>> {
    if s == [] then Some(None)
    else if |s| != 4 || s[0] / 4 != 0x3f || s[1] / 8 != 0x1f || s[2] / 8 != 0x1f || s[3] != 0 then None
    else Some(Some(Depths(s[0] as nat % 4, s[1] as nat % 8, s[2] as nat % 8)))
  }

  function ReadAvc(s: seq<Byte>): Option<AvcConfig> {
    if |s| < 6 || s[0] != 1 || s[4] / 4 != 0x3f || s[5] / 32 != 7 then None
    else
      match ReadNals(s[6..], s[5] as nat % 32)
      case None => None
      case Some((spss, rest)) =>
        if rest == [] then None
        else
          match ReadNals(rest[1..], rest[0] as nat)
          case None => None
          case Some((ppss, rest)) =>
            match ReadAvcEnd(rest)
            case None => None
            case Some(depths) => Some(AvcConfig(s[1], s[2], s[3], s[4] as nat % 4 + 1, spss, ppss, depths))
  }

  datatype NalArray = NalArray(complete: bool, kind: nat, nals: seq<Nal>)

  function ReadArrays(s: seq<Byte>, count: nat): Option<(seq<NalArray>, seq<Byte>)>
    decreases count
  {
    if count == 0 then Some(([], s))
    else if |s| < 3 || s[0] / 64 % 2 != 0 then None
    else
      match ReadNals(s[3..], FromBytes(s[1..3]))
      case None => None
      case Some((nals, rest)) =>
        match ReadArrays(rest, count - 1)
        case None => None
        case Some((arrays, rest)) => Some(([NalArray(s[0] >= 128, s[0] as nat % 64, nals)] + arrays, rest))
  }

  datatype HevcConfig = HevcConfig(
    general: seq<Byte>, minSegmentation: nat, parallelism: nat, depths: Depths, frameRate: nat, constantRate: nat,
    layers: nat, nested: bool, lengthSize: nat, arrays: seq<NalArray>)

  function ReadHevc(s: seq<Byte>): Option<HevcConfig> {
    if |s| < 23 || s[0] != 1 || s[13] as nat / 16 != 0xf || s[15] as nat / 4 != 0x3f || s[16] as nat / 4 != 0x3f
       || s[17] as nat / 8 != 0x1f || s[18] as nat / 8 != 0x1f then None
    else
      match ReadArrays(s[23..], s[22] as nat)
      case None => None
      case Some((arrays, rest)) =>
        if rest != [] then None
        else
          Some(HevcConfig(
            s[1..13], s[13] as nat % 16 * 256 + s[14] as nat, s[15] as nat % 4,
            Depths(s[16] as nat % 4, s[17] as nat % 8, s[18] as nat % 8),
            s[19] as nat * 256 + s[20] as nat, s[21] as nat / 64, s[21] as nat / 8 % 8, s[21] as nat / 4 % 2 == 1,
            s[21] as nat % 4 + 1, arrays))
  }

  // ---- Parameter sets -----------------------------------------------------

  lemma NoNals(s: seq<Byte>)
    ensures ReadNals(s, 0) == Some(([], s))
  {
  }

  lemma OneNal(nal: Nal, rest: seq<Byte>)
    requires Fits(nal)
    ensures ReadNals(SizedBytes(nal) + rest, 1) == Some(([nal], rest))
  {
    hide ToBytes, FromBytes;
    var s := SizedBytes(nal) + rest;
    TwoBytes();
    FromToBytes(|nal|, 2);
    var end := 2 + |nal|;
    assert s[..2] == ToBytes(|nal|, 2) && s[2..end] == nal && s[end..] == rest;
    NoNals(rest);
    assert [nal] + [] == [nal];
  }

  lemma TwoBytes()
    ensures Power256(2) == 0x1_0000
  {
  }

  lemma SizedIs(nal: Nal)
    ensures Sized(nal) == if Fits(nal) then Ok(SizedBytes(nal)) else Err
  {
  }

  // ---- AVC ----------------------------------------------------------------

  /** The profiles for which `codec_private` adds the chroma format and the depths. */
  predicate Listed(profile: Byte) {
    || profile == 100 || profile == 110 || profile == 122 || profile == 144 || profile == 44 || profile == 83
    || profile == 86 || profile == 118 || profile == 128 || profile == 138 || profile == 139 || profile == 134 || profile == 135
  }

  /** The profiles whose parameter sets say them: section 7.3.2.1.1 of H.264. */
  predicate SaysChroma(profile: Byte) {
    || profile == 100 || profile == 110 || profile == 122 || profile == 244 || profile == 44 || profile == 83
    || profile == 86 || profile == 118 || profile == 128 || profile == 138 || profile == 139 || profile == 134 || profile == 135
  }

  /** What the parameter set itself says, as far as `codec_private` looks. */
  function AvcSeen(sps: Nal): Parsed<Depths> { if |sps| < 4 then Fail else AvcFields(BitsOf(Unescape(sps[4..]))) }

  function ExpectedAvc(sps: Nal, pps: Nal): AvcConfig
    requires |sps| >= 4 && (Listed(sps[1]) ==> AvcSeen(sps).Done?)
  {
    AvcConfig(sps[1], sps[2], sps[3], 4, [sps], [pps], if Listed(sps[1]) then Some(AvcSeen(sps).value) else None)
  }

  lemma HighIsListed(profile: Byte)
    ensures profile in HIGH_PROFILES <==> Listed(profile)
  {
  }

  lemma ListedIsNotZero(profile: Byte)
    requires Listed(profile)
    ensures profile != 0
  {
  }

  lemma DepthBytes(d: Depths)
    requires Accepted(d.chroma, d.luma, d.chromaDepth)
    ensures ReadAvcEnd(AvcDepths(d)) == Some(Some(d))
  {
  }

  /**
   For every two parameter sets: the AVC record succeeds exactly when both fit,
   the first is long enough and, for a listed profile, its fields can be read;
   a reader then finds the profile and level bytes, four-byte lengths, exactly
   the two sets, and the fields exactly for a listed profile.
   */
  lemma AvcConfigRead(sps: Nal, pps: Nal)
    ensures AvcRecord(sps, pps).Ok? <==>
              |sps| >= 4 && Fits(sps) && Fits(pps) && (Listed(sps[1]) ==> AvcSeen(sps).Done?)
    ensures AvcRecord(sps, pps).Ok? ==>
              ReadAvc(AvcRecord(sps, pps).value) == Some(ExpectedAvc(sps, pps))
  {
    hide AvcFields, BitsOf, Unescape, Sized, SizedBytes, ReadNals, ReadAvcEnd, AvcDepths, HIGH_PROFILES, Listed;
    SizedIs(sps);
    SizedIs(pps);
    if |sps| >= 4 && Fits(sps) && Fits(pps) && (Listed(sps[1]) ==> AvcSeen(sps).Done?) {
      HighIsListed(sps[1]);
      AvcFieldsBound(BitsOf(Unescape(sps[4..])));
      var end := if Listed(sps[1]) then AvcDepths(AvcSeen(sps).value) else [];
      var head := [1, sps[1], sps[2], sps[3], 0xff, 0xe1];
      var record := head + (SizedBytes(sps) + ([1] + (SizedBytes(pps) + end)));
      FiveParts(head, SizedBytes(sps), [1], SizedBytes(pps), end);
      assert AvcRecord(sps, pps) == Ok(record);
      assert record[6..] == SizedBytes(sps) + ([1] + (SizedBytes(pps) + end));
      OneNal(sps, [1] + (SizedBytes(pps) + end));
      assert ([1] + (SizedBytes(pps) + end))[1..] == SizedBytes(pps) + end;
      OneNal(pps, end);
      EmptyEnd();
      if Listed(sps[1]) {
        DepthBytes(AvcSeen(sps).value);
      }
    } else if |sps| >= 4 {
      HighIsListed(sps[1]);
    }
  }

  lemma FiveParts(a: seq<Byte>, b: seq<Byte>, c: seq<Byte>, d: seq<Byte>, e: seq<Byte>)
    ensures a + b + c + d + e == a + (b + (c + (d + e)))
    ensures e == [] ==> a + b + c + d == a + (b + (c + (d + e)))
  {
  }

  lemma EmptyEnd()
    ensures ReadAvcEnd([]) == Some(None)
  {
  }

  /** The two lists differ in one entry each: 144 here, 244 in the standard. */
  lemma ListsDiffer(profile: Byte)
    ensures (Listed(profile) <==> SaysChroma(profile)) <==> profile != 144 && profile != 244
  {
  }

  // ---- HEVC ---------------------------------------------------------------

  lemma SmallTake(bits: seq<Bit>, count: nat)
    requires count <= 31
    ensures Take(bits, count).Done? ==> Take(bits, count).value < Power2(count)
  {
    if count <= |bits| {
      ValueBound(bits[..count]);
      Power2Grows(count, 31);
      Power2At31();
    }
  }

  lemma TierBounds(bits: seq<Bit>)
    ensures HevcTier(bits).Done? ==>
              var t := HevcTier(bits).value;
              t.sublayers < 8 && t.nested < 2 && |t.general| == 12
  {
    hide Take, TakeBytes, TakeFlags, SkipPairs, SkipLayers, Power2;
    SmallPowers();
    forall b ensures Take(b, 3).Done? ==> Take(b, 3).value < 8 {
      SmallTake(b, 3);
    }
    forall b ensures Take(b, 1).Done? ==> Take(b, 1).value < 2 {
      SmallTake(b, 1);
    }
    forall b ensures TakeBytes(b, 12).Done? ==> |TakeBytes(b, 12).value| == 12 {
      TakeBytesLength(b, 12);
    }
  }

  /** One array of one unit. */
  function ArrayBytes(kind: Byte, nal: Nal): seq<Byte>
    requires kind < 64
  {
    [0x80 + kind, 0, 1] + SizedBytes(nal)
  }

  lemma OneArray(kind: Byte, nal: Nal, rest: seq<Byte>, count: nat, arrays: seq<NalArray>)
    requires kind < 64 && Fits(nal) && count > 0 && ReadArrays(rest, count - 1) == Some((arrays, []))
    ensures ReadArrays(ArrayBytes(kind, nal) + rest, count) == Some(([NalArray(true, kind as nat, [nal])] + arrays, []))
  {
    hide SizedBytes, ReadNals;
    var s := ArrayBytes(kind, nal) + rest;
    assert s[3..] == SizedBytes(nal) + rest && s[1..3] == [0, 1];
    assert [0, 1][..1] == [0] && [0][..0] == [];
    assert FromBytes([0]) == 0;
    assert FromBytes([0, 1]) == 1;
    OneNal(nal, rest);
  }

  lemma NoArrays()
    ensures ReadArrays([], 0) == Some(([], []))
  {
  }

  function ExpectedHevc(t: Tier, d: Depths, vps: Nal, sps: Nal, pps: Nal): HevcConfig {
    HevcConfig(t.general, 0, 0, d, 0, if t.sublayers == 7 then 1 else 0, (t.sublayers + 1) % 8, t.nested == 1, 4,
               [NalArray(true, 32, [vps]), NalArray(true, 33, [sps]), NalArray(true, 34, [pps])])
  }

  lemma FixedPartRead(t: Tier, d: Depths, arrays: seq<Byte>)
    requires t.sublayers < 8 && t.nested < 2 && |t.general| == 12 && Accepted(d.chroma, d.luma, d.chromaDepth)
    ensures var s := HevcFixedPart(t, d) + arrays;
            && |s| >= 23 && s[0] == 1 && s[1..13] == t.general && s[13] == 0xf0 && s[14] == 0 && s[15] == 0xfc
            && s[16] as nat == 0xfc + d.chroma && s[17] as nat == 0xf8 + d.luma
            && s[18] as nat == 0xf8 + d.chromaDepth && s[19] == 0 && s[20] == 0
            && s[21] as nat == (t.sublayers + 1) * 8 + t.nested * 4 + 3 && s[22] == 3 && s[23..] == arrays
  {
  }

  /** What the parameter set itself says. */
  function HevcSeen(sps: Nal): Parsed<(Tier, Depths)> {
    if |sps| < 3 then Fail
    else
      match HevcTier(BitsOf(Unescape(sps[2..])))
      case Fail => Fail
      case Done(tier, rest) =>
        match HevcDepths(rest)
        case Fail => Fail
        case Done(depths, rest) => Done((tier, depths), rest)
  }

  /**
   For every three parameter sets: the HEVC record succeeds exactly when all fit
   and the fields of the second can be read; a reader then finds its general
   profile and level bytes, chroma format, depths, number of layers and nesting,
   four-byte lengths, and exactly the three sets, each in an array of its kind.
   */
  lemma HevcConfigRead(vps: Nal, sps: Nal, pps: Nal)
    ensures HevcRecord(vps, sps, pps).Ok? <==> Fits(vps) && Fits(sps) && Fits(pps) && HevcSeen(sps).Done?
    ensures HevcRecord(vps, sps, pps).Ok? ==>
              var (tier, depths) := HevcSeen(sps).value;
              ReadHevc(HevcRecord(vps, sps, pps).value) == Some(ExpectedHevc(tier, depths, vps, sps, pps))
  {
    hide HevcTier, HevcDepths, BitsOf, Unescape, Sized, SizedBytes, ReadNals, ReadArrays, HevcFixedPart;
    SizedIs(vps);
    SizedIs(sps);
    SizedIs(pps);
    if Fits(vps) && Fits(sps) && Fits(pps) && HevcSeen(sps).Done? {
      var bits := BitsOf(Unescape(sps[2..]));
      var (tier, depths) := HevcSeen(sps).value;
      TierBounds(bits);
      HevcDepthsBound(HevcTier(bits).rest);
      NoArrays();
      var a, b, c := ArrayBytes(32, vps), ArrayBytes(33, sps), ArrayBytes(34, pps);
      assert [NalArray(true, 34, [pps])] + [] == [NalArray(true, 34, [pps])];
      OneArray(34, pps, [], 1, []);
      OneArray(33, sps, c + [], 2, [NalArray(true, 34, [pps])]);
      OneArray(32, vps, b + (c + []), 3, [NalArray(true, 33, [sps])] + [NalArray(true, 34, [pps])]);
      var arrays := a + (b + (c + []));
      FixedPartRead(tier, depths, arrays);
      ArraysJoined(HevcFixedPart(tier, depths), vps, sps, pps);
      LayerByte(tier.sublayers, tier.nested);
      var three := [NalArray(true, 32, [vps]), NalArray(true, 33, [sps]), NalArray(true, 34, [pps])];
      assert [NalArray(true, 32, [vps])] + ([NalArray(true, 33, [sps])] + [NalArray(true, 34, [pps])]) == three;
      assert ReadArrays(arrays, 3) == Some((three, []));
      assert HevcRecord(vps, sps, pps) == Ok(HevcFixedPart(tier, depths) + arrays);
    }
  }

  lemma LayerByte(sublayers: nat, nested: nat)
    requires sublayers < 8 && nested < 2
    ensures var n := (sublayers + 1) * 8 + nested * 4 + 3;
            && n / 64 == (if sublayers == 7 then 1 else 0) && n / 8 % 8 == (sublayers + 1) % 8
            && n / 4 % 2 == nested && n % 4 == 3
  {
  }

  lemma ArraysJoined(head: seq<Byte>, vps: Nal, sps: Nal, pps: Nal)
    ensures head + [0x80 + 32, 0, 1] + SizedBytes(vps) + [0x80 + 33, 0, 1] + SizedBytes(sps) + [0x80 + 34, 0, 1] + SizedBytes(pps)
         == head + (ArrayBytes(32, vps) + (ArrayBytes(33, sps) + (ArrayBytes(34, pps) + [])))
  {
    hide SizedBytes;
  }

  // ---- From the byte stream -----------------------------------------------

  /** The kind `codec_private` looks for is the unit type of the header, as section 7.3.1 of H.264 and 7.3.1.2 of H.265 lay it out. */
  lemma KindIsUnitType(refIdc: nat, kind: nat, layerBit: nat, rest: seq<Byte>)
    requires refIdc < 4 && kind < 32 && layerBit < 2
    ensures Kind(H264, [(refIdc * 32 + kind) as Byte] + rest) == kind
    ensures Kind(H265, [(kind * 2 + layerBit) as Byte] + rest) == kind
    ensures Kind(H265, [((kind + 32) * 2 + layerBit) as Byte] + rest) == kind + 32
  {
  }

  /** So for every keyframe `codec_private` accepts, a reader finds the first parameter sets of each kind and what they say. */
  lemma PrivateRead(codec: Codec, data: seq<Byte>)
    requires CodecPrivateOf(codec, data).Ok?
    ensures forall nal :: nal in Units(data) ==> nal != []
    ensures var private, units := CodecPrivateOf(codec, data).value, Units(data);
            match codec
            case H264 =>
              && var sps, pps := Parameter(codec, units, 7), Parameter(codec, units, 8);
                 && sps.Ok? && pps.Ok? && |sps.value| >= 4 && (Listed(sps.value[1]) ==> AvcSeen(sps.value).Done?)
                 && ReadAvc(private) == Some(ExpectedAvc(sps.value, pps.value))
            case H265 =>
              && var vps, sps, pps := Parameter(codec, units, 32), Parameter(codec, units, 33), Parameter(codec, units, 34);
                 && vps.Ok? && sps.Ok? && pps.Ok? && HevcSeen(sps.value).Done?
                 && ReadHevc(private)
                    == Some(ExpectedHevc(HevcSeen(sps.value).value.0, HevcSeen(sps.value).value.1, vps.value, sps.value, pps.value))
  {
    hide Units, Parameter, AvcRecord, HevcRecord, HevcSeen, AvcSeen, Listed, ReadAvc, ReadHevc, ExpectedAvc, ExpectedHevc;
    UnitsWellFormed(data);
    var units := Units(data);
    match codec
    case H264 => AvcConfigRead(Parameter(codec, units, 7).value, Parameter(codec, units, 8).value);
    case H265 =>
      HevcConfigRead(Parameter(codec, units, 32).value, Parameter(codec, units, 33).value, Parameter(codec, units, 34).value);
  }

  /**
   For every HEVC parameter set, escaped and framed in any way Annex B allows:
   if there is a record, a reader finds in it exactly the set's own fields. The
   number of layers has three bits; H.265 allows at most six sub-layers.
   */
  lemma HevcSetRead(s: HevcSps, rest: seq<Bit>, header: seq<Byte>, nals: seq<Nal>, zeros: seq<nat>)
    requires ValidHevc(s) && |PrintHevc(s, rest)| % 8 == 0 && |header| == 2
    requires Carried(nals, zeros) && Parameter(H265, nals, 33) == Ok(NalOf(header, HevcPayload(s, rest)))
    requires CodecPrivateOf(H265, Framed(nals, zeros)).Ok?
    ensures Parameter(H265, nals, 32).Ok? && Parameter(H265, nals, 34).Ok?
    ensures ReadHevc(CodecPrivateOf(H265, Framed(nals, zeros)).value)
         == Some(HevcConfig(s.general, 0, 0, Depths(s.chroma, s.luma, s.chromaDepth), 0,
                            if |s.layers| == 7 then 1 else 0, (|s.layers| + 1) % 8, s.nested == 1, 4,
                            [NalArray(true, 32, [Parameter(H265, nals, 32).value]),
                             NalArray(true, 33, [NalOf(header, HevcPayload(s, rest))]),
                             NalArray(true, 34, [Parameter(H265, nals, 34).value])]))
  {
    hide Units, Parameter, HevcRecord, ReadHevc, Framed, HevcTier, HevcDepths, PrintHevc, BitsOf, Unescape, Escape, Pack,
         WellFormed, ValidHevc;
    UnitsOfFramed(nals, zeros);
    PrivateRead(H265, Framed(nals, zeros));
    var sps := NalOf(header, HevcPayload(s, rest));
    assert sps[2..] == Escape(HevcPayload(s, rest));
    EscapeUndone(HevcPayload(s, rest));
    BitsOfPack(PrintHevc(s, rest));
    HevcRead(s, rest);
  }

  /** The same for every AVC parameter set of a listed profile whose ID hides no emulation prevention byte. */
  lemma AvcSetRead(
    profile: Byte, constraints: Byte, level: Byte, s: AvcSps, rest: seq<Bit>, header: Byte, nals: seq<Nal>, zeros: seq<nat>)
    requires CarriesAvc(profile, constraints, level, s, rest, header, nals, zeros) && !HidesEscape(constraints, level, s.id)
    requires CodecPrivateOf(H264, Framed(nals, zeros)).Ok?
    ensures Parameter(H264, nals, 8).Ok?
    ensures ReadAvc(CodecPrivateOf(H264, Framed(nals, zeros)).value)
         == Some(AvcConfig(profile, constraints, level, 4, [NalOf([header], AvcPayload(profile, constraints, level, s, rest))],
                           [Parameter(H264, nals, 8).value], Some(Depths(s.chroma, s.luma, s.chromaDepth))))
  {
    hide Units, Parameter, AvcRecord, ReadAvc, Framed, AvcFields, PrintAvc, BitsOf, Unescape, Escape, EscapeFrom, Pack,
         WellFormed, ValidAvc, HidesEscape, Listed, HIGH_PROFILES;
    UnitsOfFramed(nals, zeros);
    PrivateRead(H264, Framed(nals, zeros));
    var fields := Pack(PrintAvc(s, rest));
    var sps := NalOf([header], AvcPayload(profile, constraints, level, s, rest));
    HighIsListed(profile);
    ListedIsNotZero(profile);
    EscapedHead(profile, constraints, level, fields);
    var seen := EscapeFrom(ZerosBefore(constraints, level), fields);
    assert sps == [header, profile, constraints, level] + seen;
    assert sps[4..] == seen;
    RightUnlessHidden(constraints, level, s, rest);
  }
}
