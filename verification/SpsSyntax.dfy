/**
 Sequence parameter sets as the standards print them (section 7.3.2.1.1 of
 H.264 and 7.3.2.2.1 of H.265), and what `codec_private` reads back out of them.
 */
module SpsSyntax {
  import opened Bytes
  import opened AnnexB
  import opened Rbsp
  import opened BitReader
  import opened BitWriter
  import opened ParameterSets

  /** The fields of an HEVC sub-layer, when present: 88 profile bits and a level byte. */
  datatype SubLayer = SubLayer(profile: Option<seq<Byte>>, level: Option<Byte>)

  datatype Window = Window(left: nat, right: nat, top: nat, bottom: nat)

  /** An HEVC SPS up to its bit depths. `general` is the 96 bits from the profile space to the level. */
  datatype HevcSps = HevcSps(
    vpsId: nat, nested: Bit, general: seq<Byte>, layers: seq<SubLayer>,
    id: nat, chroma: nat, separatePlanes: Bit, width: nat, height: nat, window: Option<Window>,
    luma: nat, chromaDepth: nat)

  /** The fields of a high-profile AVC SPS from its ID to its bit depths. */
  datatype AvcSps = AvcSps(id: nat, chroma: nat, separatePlanes: Bit, luma: nat, chromaDepth: nat)

  predicate Coded(v: nat) { v < WORD - 1 }

  predicate ValidHevc(s: HevcSps) {
    && s.vpsId < 16 && |s.general| == 12 && |s.layers| <= 7
    && (forall i :: 0 <= i < |s.layers| ==> s.layers[i].profile.Some? ==> |s.layers[i].profile.value| == 11)
    && Coded(s.id) && Coded(s.chroma) && Coded(s.width) && Coded(s.height)
    && (s.window.Some? ==> Coded(s.window.value.left) && Coded(s.window.value.right)
                           && Coded(s.window.value.top) && Coded(s.window.value.bottom))
    && Coded(s.luma) && Coded(s.chromaDepth)
  }

  predicate ValidAvc(s: AvcSps) {
    Coded(s.id) && Coded(s.chroma) && Coded(s.luma) && Coded(s.chromaDepth)
  }

  // ---- Printing, each in front of the bits that follow --------------------

  function PrintBytes(bytes: seq<Byte>, rest: seq<Bit>): seq<Bit> {
    if bytes == [] then rest else Fixed(bytes[0] as nat, 8) + PrintBytes(bytes[1..], rest)
  }

  function PrintFlags(layers: seq<SubLayer>, rest: seq<Bit>): seq<Bit> {
    if layers == [] then rest
    else Fixed(if layers[0].profile.Some? then 1 else 0, 1)
         + (Fixed(if layers[0].level.Some? then 1 else 0, 1) + PrintFlags(layers[1..], rest))
  }

  function PrintPairs(n: nat, rest: seq<Bit>): seq<Bit> {
    if n == 0 then rest else Fixed(0, 2) + PrintPairs(n - 1, rest)
  }

  function PrintLayers(layers: seq<SubLayer>, rest: seq<Bit>): seq<Bit> {
    if layers == [] then rest
    else
      PrintBytes(if layers[0].profile.Some? then layers[0].profile.value else [],
                 PrintBytes(if layers[0].level.Some? then [layers[0].level.value] else [],
                            PrintLayers(layers[1..], rest)))
  }

  function PrintTier(s: HevcSps, rest: seq<Bit>): seq<Bit> {
    var n := |s.layers|;
    Fixed(s.vpsId, 4) + (Fixed(n, 3) + (Fixed(s.nested, 1) + PrintBytes(s.general,
      PrintFlags(s.layers, PrintPairs(if 0 < n <= 8 then 8 - n else 0, PrintLayers(s.layers, rest))))))
  }

  function PrintChroma(id: nat, chroma: nat, separatePlanes: Bit, rest: seq<Bit>): seq<Bit> {
    Golomb(id) + (Golomb(chroma) + if chroma == 3 then Fixed(separatePlanes, 1) + rest else rest)
  }

  function PrintDepths(luma: nat, chromaDepth: nat, rest: seq<Bit>): seq<Bit> {
    Golomb(luma) + (Golomb(chromaDepth) + rest)
  }

  function PrintUes(values: seq<nat>, rest: seq<Bit>): seq<Bit> {
    if values == [] then rest else Golomb(values[0]) + PrintUes(values[1..], rest)
  }

  function WindowValues(window: Option<Window>): seq<nat> {
    match window
    case None => []
    case Some(w) => [w.left, w.right, w.top, w.bottom]
  }

  function PrintHevc(s: HevcSps, rest: seq<Bit>): seq<Bit> {
    PrintTier(s, PrintChroma(s.id, s.chroma, s.separatePlanes,
      PrintUes([s.width, s.height], Fixed(if s.window.Some? then 1 else 0, 1)
        + PrintUes(WindowValues(s.window), PrintDepths(s.luma, s.chromaDepth, rest)))))
  }

  function PrintAvc(s: AvcSps, rest: seq<Bit>): seq<Bit> {
    PrintChroma(s.id, s.chroma, s.separatePlanes, PrintDepths(s.luma, s.chromaDepth, rest))
  }

  // ---- Reading back, piece by piece ---------------------------------------

  lemma SmallPowers()
    ensures Power2(1) == 2 && Power2(2) == 4 && Power2(3) == 8 && Power2(4) == 16 && Power2(8) == 256
  {
    assert Power2(2) == 4;
    assert Power2(4) == 16;
    assert Power2(6) == 64;
  }

  lemma {:induction false} BytesRead(bytes: seq<Byte>, rest: seq<Bit>)
    ensures TakeBytes(PrintBytes(bytes, rest), |bytes|) == Done(bytes, rest)
  {
    hide Take, Fixed, Power2;
    if bytes != [] {
      SmallPowers();
      TakeFixed(bytes[0] as nat, 8, PrintBytes(bytes[1..], rest));
      BytesRead(bytes[1..], rest);
      assert [bytes[0]] + bytes[1..] == bytes;
    }
  }

  function FlagsOf(layers: seq<SubLayer>): (flags: seq<Flags>)
    ensures |flags| == |layers|
  {
    if layers == [] then []
    else [Flags(if layers[0].profile.Some? then 1 else 0, if layers[0].level.Some? then 1 else 0)]
         + FlagsOf(layers[1..])
  }

  lemma {:induction false} FlagsRead(layers: seq<SubLayer>, rest: seq<Bit>)
    ensures TakeFlags(PrintFlags(layers, rest), |layers|) == Done(FlagsOf(layers), rest)
  {
    hide Take, Fixed, Power2;
    if layers != [] {
      SmallPowers();
      var profile, level := if layers[0].profile.Some? then 1 else 0, if layers[0].level.Some? then 1 else 0;
      var tail := PrintFlags(layers[1..], rest);
      TakeFixed(profile, 1, Fixed(level, 1) + tail);
      TakeFixed(level, 1, tail);
      FlagsRead(layers[1..], rest);
    }
  }

  lemma {:induction false} PairsRead(n: nat, rest: seq<Bit>)
    ensures SkipPairs(PrintPairs(n, rest), n) == Done((), rest)
  {
    hide Take, Fixed, Power2;
    if n > 0 {
      SmallPowers();
      TakeFixed(0, 2, PrintPairs(n - 1, rest));
      PairsRead(n - 1, rest);
    }
  }

  lemma LevelRead(level: Option<Byte>, rest: seq<Bit>)
    ensures TakeIf(level.Some?, PrintBytes(if level.Some? then [level.value] else [], rest), 8).Done?
    ensures TakeIf(level.Some?, PrintBytes(if level.Some? then [level.value] else [], rest), 8).rest == rest
  {
    hide Take, Fixed, Power2;
    if level.Some? {
      SmallPowers();
      assert PrintBytes([level.value], rest) == Fixed(level.value as nat, 8) + PrintBytes([level.value][1..], rest);
      assert [level.value][1..] == [];
      TakeFixed(level.value as nat, 8, rest);
    }
  }

  lemma {:induction false} LayersRead(layers: seq<SubLayer>, rest: seq<Bit>)
    requires forall i :: 0 <= i < |layers| ==> layers[i].profile.Some? ==> |layers[i].profile.value| == 11
    ensures SkipLayers(PrintLayers(layers, rest), FlagsOf(layers)) == Done((), rest)
  {
    hide TakeIf, TakeBytes, PrintBytes;
    if layers != [] {
      var flags := FlagsOf(layers);
      assert flags[1..] == FlagsOf(layers[1..]);
      var tail := PrintLayers(layers[1..], rest);
      var level := layers[0].level;
      var levelPart := PrintBytes(if level.Some? then [level.value] else [], tail);
      BytesRead(if layers[0].profile.Some? then layers[0].profile.value else [], levelPart);
      LevelRead(level, tail);
      LayersRead(layers[1..], rest);
    }
  }

  lemma TierRead(s: HevcSps, rest: seq<Bit>)
    requires ValidHevc(s)
    ensures HevcTier(PrintTier(s, rest)) == Done(Tier(|s.layers|, s.nested, s.general), rest)
  {
    hide Take, Fixed, Power2, TakeBytes, TakeFlags, SkipPairs, SkipLayers,
         PrintBytes, PrintFlags, PrintPairs, PrintLayers;
    var n := |s.layers|;
    var layers := PrintLayers(s.layers, rest);
    var pairs := PrintPairs(if 0 < n <= 8 then 8 - n else 0, layers);
    var flags := PrintFlags(s.layers, pairs);
    var general := PrintBytes(s.general, flags);
    SmallPowers();
    TakeFixed(s.vpsId, 4, Fixed(n, 3) + (Fixed(s.nested, 1) + general));
    TakeFixed(n, 3, Fixed(s.nested, 1) + general);
    TakeFixed(s.nested, 1, general);
    BytesRead(s.general, flags);
    FlagsRead(s.layers, pairs);
    PairsRead(if 0 < n <= 8 then 8 - n else 0, layers);
    LayersRead(s.layers, rest);
  }

  lemma ChromaRead(id: nat, chroma: nat, separatePlanes: Bit, rest: seq<Bit>)
    requires Coded(id) && Coded(chroma)
    ensures TakeChroma(PrintChroma(id, chroma, separatePlanes, rest))
         == if chroma <= 3 then Done(chroma, rest) else Fail
  {
    hide Ue, Take, Fixed, Golomb, Power2;
    var tail := if chroma == 3 then Fixed(separatePlanes, 1) + rest else rest;
    UeOfGolomb(id, Golomb(chroma) + tail);
    UeOfGolomb(chroma, tail);
    SmallPowers();
    TakeFixed(separatePlanes, 1, rest);
  }

  lemma DepthsRead(chroma: nat, luma: nat, chromaDepth: nat, rest: seq<Bit>)
    requires Coded(luma) && Coded(chromaDepth)
    ensures TakeDepths(PrintDepths(luma, chromaDepth, rest), chroma)
         == if luma <= 7 && chromaDepth <= 7 then Done(Depths(chroma, luma, chromaDepth), rest) else Fail
  {
    hide Ue, Golomb;
    UeOfGolomb(luma, Golomb(chromaDepth) + rest);
    UeOfGolomb(chromaDepth, rest);
  }

  lemma {:induction false} UesRead(values: seq<nat>, rest: seq<Bit>)
    requires forall v :: v in values ==> Coded(v)
    ensures SkipUes(PrintUes(values, rest), |values|) == Done((), rest)
  {
    hide Ue, Golomb;
    if values != [] {
      assert values[0] in values && forall v :: v in values[1..] ==> v in values;
      UeOfGolomb(values[0], PrintUes(values[1..], rest));
      UesRead(values[1..], rest);
    }
  }

  predicate Accepted(chroma: nat, luma: nat, chromaDepth: nat) { chroma <= 3 && luma <= 7 && chromaDepth <= 7 }

  /** An AVC SPS is read back exactly, and refused exactly when a field is out of range. */
  lemma AvcRead(s: AvcSps, rest: seq<Bit>)
    requires ValidAvc(s)
    ensures AvcFields(PrintAvc(s, rest))
         == if Accepted(s.chroma, s.luma, s.chromaDepth) then Done(Depths(s.chroma, s.luma, s.chromaDepth), rest)
            else Fail
  {
    hide TakeChroma, TakeDepths, PrintChroma, PrintDepths;
    ChromaRead(s.id, s.chroma, s.separatePlanes, PrintDepths(s.luma, s.chromaDepth, rest));
    DepthsRead(s.chroma, s.luma, s.chromaDepth, rest);
  }

  /** An HEVC SPS is read back exactly, whatever sub-layers and window it has. */
  lemma HevcRead(s: HevcSps, rest: seq<Bit>)
    requires ValidHevc(s)
    ensures var tier := HevcTier(PrintHevc(s, rest));
            && tier.Done? && tier.value == Tier(|s.layers|, s.nested, s.general)
            && HevcDepths(tier.rest)
               == if Accepted(s.chroma, s.luma, s.chromaDepth)
                  then Done(Depths(s.chroma, s.luma, s.chromaDepth), rest) else Fail
  {
    hide HevcTier, PrintTier, TakeChroma, TakeDepths, PrintChroma, PrintDepths, SkipUes, PrintUes,
         Take, Fixed, Power2;
    var depths := PrintDepths(s.luma, s.chromaDepth, rest);
    var values := WindowValues(s.window);
    var window := PrintUes(values, depths);
    var flag := if s.window.Some? then 1 else 0;
    var sizes := PrintUes([s.width, s.height], Fixed(flag, 1) + window);
    TierRead(s, PrintChroma(s.id, s.chroma, s.separatePlanes, sizes));
    ChromaRead(s.id, s.chroma, s.separatePlanes, sizes);
    UesRead([s.width, s.height], Fixed(flag, 1) + window);
    SmallPowers();
    TakeFixed(flag, 1, window);
    UesRead(values, depths);
    DepthsRead(s.chroma, s.luma, s.chromaDepth, rest);
  }

  // ---- From the byte stream to the record ---------------------------------

  /** The bytes of a parameter set: printed, followed by any further bits up to a byte boundary. */
  function HevcPayload(s: HevcSps, rest: seq<Bit>): seq<Byte>
    requires |PrintHevc(s, rest)| % 8 == 0
  {
    Pack(PrintHevc(s, rest))
  }

  function AvcPayload(profile: Byte, constraints: Byte, level: Byte, s: AvcSps, rest: seq<Bit>): seq<Byte>
    requires |PrintAvc(s, rest)| % 8 == 0
  {
    [profile, constraints, level] + Pack(PrintAvc(s, rest))
  }

  predicate Fits(nal: Nal) { |nal| < 0x1_0000 }

  function SizedBytes(nal: Nal): seq<Byte> { ToBytes(|nal|, 2) + nal }

  /** The record of an HEVC parameter set with fields `s`. */
  function HevcExpected(s: HevcSps, vps: Result<Nal>, sps: Nal, pps: Result<Nal>): Result<seq<Byte>> {
    if vps.Err? || pps.Err? || |sps| < 3 || !Fits(vps.value) || !Fits(sps) || !Fits(pps.value) then Err
    else if !Accepted(s.chroma, s.luma, s.chromaDepth) then Err
    else Ok(HevcFixedPart(Tier(|s.layers|, s.nested, s.general), Depths(s.chroma, s.luma, s.chromaDepth))
            + [0x80 + 32, 0, 1] + SizedBytes(vps.value) + [0x80 + 33, 0, 1] + SizedBytes(sps)
            + [0x80 + 34, 0, 1] + SizedBytes(pps.value))
  }

  /** The record of a high-profile AVC parameter set with fields `s`. */
  function AvcExpected(s: AvcSps, sps: Nal, pps: Result<Nal>): Result<seq<Byte>> {
    if pps.Err? || |sps| < 4 || !Fits(sps) || !Fits(pps.value) then Err
    else if !Accepted(s.chroma, s.luma, s.chromaDepth) then Err
    else Ok([1, sps[1], sps[2], sps[3], 0xff, 0xe1] + SizedBytes(sps) + [1] + SizedBytes(pps.value)
            + AvcDepths(Depths(s.chroma, s.luma, s.chromaDepth)))
  }

  ghost predicate Carried(nals: seq<Nal>, zeros: seq<nat>) {
    |zeros| == |nals| + 1 && forall nal :: nal in nals ==> nal != [] && WellFormed(nal)
  }

  /**
   For every HEVC parameter set, escaped and framed with any other units in any
   way Annex B allows, `codec_private` succeeds exactly when the fields are in
   range and the units short enough, and the record holds exactly those fields.
   */
  lemma HevcRoundTrip(s: HevcSps, rest: seq<Bit>, header: seq<Byte>, nals: seq<Nal>, zeros: seq<nat>)
    requires ValidHevc(s) && |PrintHevc(s, rest)| % 8 == 0 && |header| == 2
    requires Carried(nals, zeros) && Parameter(H265, nals, 33) == Ok(NalOf(header, HevcPayload(s, rest)))
    ensures CodecPrivateOf(H265, Framed(nals, zeros))
         == HevcExpected(s, Parameter(H265, nals, 32), NalOf(header, HevcPayload(s, rest)), Parameter(H265, nals, 34))
  {
    hide HevcTier, HevcDepths, PrintHevc, BitsOf, Unescape, Escape, Framed, Units, Parameter, HevcFixedPart, ToBytes,
         WellFormed, ValidHevc;
    var sps := NalOf(header, HevcPayload(s, rest));
    UnitsOfFramed(nals, zeros);
    assert sps[2..] == Escape(HevcPayload(s, rest));
    EscapeUndone(HevcPayload(s, rest));
    BitsOfPack(PrintHevc(s, rest));
    HevcRead(s, rest);
  }

  lemma EscapeUndone(payload: seq<Byte>)
    ensures Unescape(Escape(payload)) == payload
  {
    UnescapeOfEscape(0, payload);
  }
}
