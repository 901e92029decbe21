/**
 The AVC side of `codec_private` in remote/src/matroska.rs: it unescapes a
 parameter set from its fifth byte on, as if no zero byte came before. Which
 sets it reads right all the same, and what it makes of the others.
 */
module AvcEscapes {
  import opened Bytes
  import opened AnnexB
  import opened Rbsp
  import opened BitReader
  import opened BitWriter
  import opened ParameterSets
  import opened SpsSyntax

  /** The zero bytes before the part of an AVC SPS that `codec_private` unescapes on its own. */
  function ZerosBefore(constraints: Byte, level: Byte): nat {
    if level != 0 then 0 else if constraints != 0 then 1 else 2
  }

  lemma EscapedHead(profile: Byte, constraints: Byte, level: Byte, fields: seq<Byte>)
    requires profile != 0
    ensures Escape([profile, constraints, level] + fields)
         == [profile, constraints, level] + EscapeFrom(ZerosBefore(constraints, level), fields)
  {
    var p3 := [profile, constraints, level] + fields;
    var p2 := [constraints, level] + fields;
    var p1 := [level] + fields;
    assert p3[1..] == p2 && p2[1..] == p1 && p1[1..] == fields;
    var z := if constraints == 0 then 1 else 0;
    assert EscapeFrom(0, p3) == [profile] + EscapeFrom(0, p2);
    assert EscapeFrom(0, p2) == [constraints] + EscapeFrom(z, p1);
    assert EscapeFrom(z, p1) == [level] + EscapeFrom(ZerosBefore(constraints, level), fields);
  }

  /** The emulation prevention byte that starts before the part read goes unseen. */
  predicate Straddles(zeros: nat, fields: seq<Byte>) {
    || (zeros == 2 && |fields| >= 1 && fields[0] <= 3)
    || (zeros == 1 && |fields| >= 2 && fields[0] == 0 && fields[1] <= 3)
  }

  /**
   `codec_private` unescapes an AVC SPS from its fifth byte, as if no zero byte
   came before. It gets the fields back exactly when no emulation prevention
   byte depends on the zero bytes before them.
   */
  lemma SkippedHead(zeros: nat, fields: seq<Byte>)
    requires zeros <= 2
    ensures Unescape(EscapeFrom(zeros, fields)) == fields <==> !Straddles(zeros, fields)
  {
    hide Unescape;
    if !Straddles(zeros, fields) {
      SameEscape(zeros, fields);
      EscapeUndone(fields);
    } else if zeros == 2 {
      LateEscape(fields);
      assert |[3] + fields| > |fields|;
    } else {
      LaterEscape(fields[1..]);
      var tail := fields[1..];
      assert EscapeFrom(1, fields) == [0] + EscapeFrom(2, tail);
      assert |[0, 3] + tail| > |fields|;
    }
  }

  lemma SameEscape(zeros: nat, fields: seq<Byte>)
    requires zeros <= 2 && !Straddles(zeros, fields)
    ensures EscapeFrom(zeros, fields) == Escape(fields)
  {
    if |fields| >= 1 && fields[0] == 0 && zeros < 2 {
      assert EscapeFrom(zeros, fields) == [0] + EscapeFrom(zeros + 1, fields[1..]);
      assert EscapeFrom(0, fields) == [0] + EscapeFrom(1, fields[1..]);
      if |fields| >= 2 {
        var tail := fields[1..];
        assert zeros == 1 ==> EscapeFrom(2, tail) == [tail[0]] + EscapeFrom(0, tail[1..]);
        assert zeros == 1 ==> EscapeFrom(1, tail) == [tail[0]] + EscapeFrom(0, tail[1..]);
      }
    }
  }

  /** An unseen emulation prevention byte stays in the result. */
  lemma LateEscape(fields: seq<Byte>)
    requires fields != [] && fields[0] <= 3
    ensures Unescape(EscapeFrom(2, fields)) == [3] + fields
  {
    EscapeAtOnce(fields);
    EscapeUndone(fields);
    var e := Escape(fields);
    assert ([3] + e)[1..] == e;
    assert UnescapeFrom(0, [3] + e) == [3] + UnescapeFrom(0, e);
  }

  lemma LaterEscape(fields: seq<Byte>)
    requires fields != [] && fields[0] <= 3
    ensures Unescape([0] + EscapeFrom(2, fields)) == [0, 3] + fields
  {
    EscapeAtOnce(fields);
    EscapeUndone(fields);
    var e := Escape(fields);
    var e3 := [3] + e;
    assert e3[1..] == e && ([0] + e3)[1..] == e3;
    assert UnescapeFrom(1, e3) == [3] + UnescapeFrom(0, e);
    assert UnescapeFrom(0, [0] + e3) == [0] + UnescapeFrom(1, e3);
  }

  lemma EscapeAtOnce(fields: seq<Byte>)
    requires fields != [] && fields[0] <= 3
    ensures EscapeFrom(2, fields) == [3] + Escape(fields)
  {
    var next := if fields[0] == 0 then 1 else 0;
    assert EscapeFrom(0, fields) == [fields[0]] + EscapeFrom(next, fields[1..]);
    assert EscapeFrom(2, fields) == [3, fields[0]] + EscapeFrom(next, fields[1..]);
  }

  // ---- Which AVC parameter sets are read right ----------------------------

  /**
   Zero bytes right before the ID, and a code for the ID that begins with so
   many zero bits that an emulation prevention byte comes before or inside it.
   */
  predicate HidesEscape(constraints: Byte, level: Byte, id: nat) {
    var zeros := ZerosBefore(constraints, level);
    (zeros == 2 && id >= 63) || (zeros == 1 && id >= 0x3fff)
  }

  predicate AllZero(bits: seq<Bit>, n: nat)
    requires n <= |bits|
  {
    forall i :: 0 <= i < n ==> bits[i] == 0
  }

  /** `bits` begin with exactly `n` zeros, and go on as long as a code with so many does. */
  predicate Leads(bits: seq<Bit>, n: nat) { |bits| >= 2 * n + 1 && AllZero(bits, n) && bits[n] == 1 }

  lemma {:induction false} ZeroBitsLead(n: nat, tail: seq<Bit>)
    requires |tail| > n && tail[0] == 1
    ensures Leads(ZeroBits(n) + tail, n)
    decreases n
  {
    var bits := ZeroBits(n) + tail;
    if n > 0 {
      ZeroBitsLead(n - 1, tail);
      assert bits == [0] + (ZeroBits(n - 1) + tail);
    }
  }

  lemma GolombLeads(v: nat, rest: seq<Bit>)
    ensures Leads(Golomb(v) + rest, LeadingZeros(v))
  {
    hide Fixed, LeadingZeros, Power2;
    var n := LeadingZeros(v);
    var tail := [1] + Fixed(v + 1 - Power2(n), n) + rest;
    ZeroBitsLead(n, tail);
    assert Golomb(v) + rest == ZeroBits(n) + tail;
  }

  lemma ManyZeros(v: nat)
    ensures LeadingZeros(v) >= 6 <==> v >= 63
    ensures LeadingZeros(v) >= 14 <==> v >= 0x3fff
  {
    hide LeadingZeros;
    var n := LeadingZeros(v);
    SomePowers();
    Grows(n, 6);
    Grows(n, 14);
  }

  lemma SomePowers()
    ensures Power2(5) == 32 && Power2(6) == 64 && Power2(13) == 0x2000 && Power2(14) == 0x4000
  {
    assert Power2(4) == 16;
    assert Power2(8) == 256;
    assert Power2(12) == 0x1000;
  }

  lemma Grows(n: nat, k: nat)
    requires k > 0
    ensures n >= k ==> Power2(n) >= Power2(k)
    ensures n < k ==> Power2(n) <= Power2(k - 1)
  {
    if n >= k {
      Power2Grows(k, n);
    } else {
      Power2Grows(n, k - 1);
    }
  }

  lemma SmallWeight(a: Bit, b: Bit, c: Bit, d: Bit, e: Bit, f: Bit, g: Bit, h: Bit)
    ensures Weighted(a, b, c, d, e, f, g, h) <= 3 <==> a == b == c == d == e == f == 0
    ensures Weighted(a, b, c, d, e, f, g, h) == 0 <==> a == b == c == d == e == f == g == h == 0
  {
  }

  /** A byte is at most 3, or zero, as its first six bits, or all, are zero. */
  lemma SmallByte(bits: seq<Bit>)
    requires |bits| == 8
    ensures ByteOf(bits) <= 3 <==> AllZero(bits, 6)
    ensures ByteOf(bits) == 0 <==> AllZero(bits, 8)
  {
    hide Weighted;
    SmallWeight(bits[0], bits[1], bits[2], bits[3], bits[4], bits[5], bits[6], bits[7]);
  }

  /** Whether an emulation prevention byte goes unseen is decided by the ID. */
  lemma StraddlesById(zeros: nat, bits: seq<Bit>, n: nat)
    requires zeros <= 2 && |bits| % 8 == 0 && Leads(bits, n)
    ensures Straddles(zeros, Pack(bits)) <==> (zeros == 2 && n >= 6) || (zeros == 1 && n >= 14)
  {
    hide ByteOf;
    var fields := Pack(bits);
    var b0 := bits[0..8];
    SmallByte(b0);
    assert fields[0] == ByteOf(b0);
    assert n < 8 ==> b0[n] == 1;
    if |fields| >= 2 {
      var b1 := bits[8..16];
      SmallByte(b1);
      assert fields[1] == ByteOf(b1);
      assert 8 <= n < 16 ==> b1[n - 8] == 1;
    }
  }

  /** What `codec_private` reads out of an AVC parameter set's fields when these two bytes come before them. */
  function FieldsSeen(constraints: Byte, level: Byte, s: AvcSps, rest: seq<Bit>): Parsed<Depths>
    requires |PrintAvc(s, rest)| % 8 == 0
  {
    AvcFields(BitsOf(Unescape(EscapeFrom(ZerosBefore(constraints, level), Pack(PrintAvc(s, rest))))))
  }

  /** It reads the chroma format and the bit depths that were printed, or refuses them for being out of range. */
  predicate ReadRight(constraints: Byte, level: Byte, s: AvcSps, rest: seq<Bit>)
    requires |PrintAvc(s, rest)| % 8 == 0
  {
    var seen := FieldsSeen(constraints, level, s, rest);
    if Accepted(s.chroma, s.luma, s.chromaDepth)
    then seen.Done? && seen.value == Depths(s.chroma, s.luma, s.chromaDepth)
    else seen.Fail?
  }

  lemma HidesIsStraddles(constraints: Byte, level: Byte, s: AvcSps, rest: seq<Bit>)
    requires |PrintAvc(s, rest)| % 8 == 0
    ensures Straddles(ZerosBefore(constraints, level), Pack(PrintAvc(s, rest))) <==> HidesEscape(constraints, level, s.id)
  {
    hide Pack, Leads, Golomb, LeadingZeros, Straddles;
    var tail := Golomb(s.chroma) + if s.chroma == 3 then Fixed(s.separatePlanes, 1) + PrintDepths(s.luma, s.chromaDepth, rest)
                                   else PrintDepths(s.luma, s.chromaDepth, rest);
    GolombLeads(s.id, tail);
    ManyZeros(s.id);
    StraddlesById(ZerosBefore(constraints, level), PrintAvc(s, rest), LeadingZeros(s.id));
  }

  lemma RightUnlessHidden(constraints: Byte, level: Byte, s: AvcSps, rest: seq<Bit>)
    requires ValidAvc(s) && |PrintAvc(s, rest)| % 8 == 0 && !HidesEscape(constraints, level, s.id)
    ensures ReadRight(constraints, level, s, rest)
  {
    hide AvcFields, PrintAvc, BitsOf, Unescape, EscapeFrom, Pack, Straddles, ValidAvc;
    HidesIsStraddles(constraints, level, s, rest);
    SkippedHead(ZerosBefore(constraints, level), Pack(PrintAvc(s, rest)));
    BitsOfPack(PrintAvc(s, rest));
    AvcRead(s, rest);
  }

  // Two sets with one ID cannot both be read right when the escape is hidden:
  // what is then taken for the ID ends inside the true one, so the first bit
  // taken for the chroma format is the same in both.

  lemma UeWithin(bits: seq<Bit>, n: nat)
    requires n < 32 && Leads(bits, n)
    ensures Ue(bits).Done? && Ue(bits).rest == bits[2 * n + 1..]
  {
    hide Take;
    assert bits == ZeroBits(n) + bits[n..] by {
      ZerosAre(bits, n);
    }
    UeAfterZeros(n, 0, bits[n..]);
    var suffix := bits[n + 1..];
    assert bits[n..][1..] == suffix;
    TakenRest(suffix, n);
    assert suffix[n..] == bits[2 * n + 1..];
  }

  lemma TakenRest(bits: seq<Bit>, n: nat)
    requires n <= |bits|
    ensures Take(bits, n).Done? && Take(bits, n).rest == bits[n..]
  {
  }

  lemma {:induction false} ZerosAre(bits: seq<Bit>, n: nat)
    requires n <= |bits| && AllZero(bits, n)
    ensures bits[..n] == ZeroBits(n)
    decreases n
  {
    if n > 0 {
      ZerosAre(bits[1..], n - 1);
      assert bits[..n] == [0] + bits[1..][..n - 1];
    }
  }

  lemma FirstBitDecides(bits: seq<Bit>)
    requires Ue(bits).Done?
    ensures Ue(bits).value == 0 <==> bits[0] == 1
  {
    hide Take;
    if bits[0] == 1 {
      TakeNothing(bits[1..]);
    } else {
      LaterUe(bits[1..], 1);
    }
  }

  lemma TakeNothing(bits: seq<Bit>)
    ensures Take(bits, 0) == Done(0, bits)
  {
    assert bits[..0] == [];
  }

  lemma {:induction false} LaterUe(bits: seq<Bit>, zeros: nat)
    requires zeros >= 1
    ensures UeFrom(bits, zeros).Done? ==> UeFrom(bits, zeros).value >= 1
    decreases |bits|
  {
    hide Take;
    if bits != [] && bits[0] == 0 {
      LaterUe(bits[1..], zeros + 1);
    } else {
      Power2Grows(1, zeros);
      assert Power2(1) == 2;
    }
  }

  lemma ChromaIsSecond(bits: seq<Bit>)
    requires AvcFields(bits).Done?
    ensures Ue(bits).Done? && Ue(Ue(bits).rest).Done? && AvcFields(bits).value.chroma == Ue(Ue(bits).rest).value
  {
    hide Ue, Take;
  }

  /** Bits that agree past what is taken for the ID cannot give chroma format 0 in one case and 1 in the other. */
  lemma SharedStart(shared: seq<Bit>, a: seq<Bit>, b: seq<Bit>, n: nat)
    requires n < 32 && Leads(shared, n) && |shared| > 2 * n + 1
    ensures var x, y := AvcFields(shared + a), AvcFields(shared + b);
            x.Done? && y.Done? ==> (x.value.chroma == 0 <==> y.value.chroma == 0)
  {
    hide AvcFields, Ue;
    if AvcFields(shared + a).Done? && AvcFields(shared + b).Done? {
      ChromaIsSecond(shared + a);
      ChromaIsSecond(shared + b);
      UeWithin(shared + a, n);
      UeWithin(shared + b, n);
      FirstBitDecides((shared + a)[2 * n + 1..]);
      FirstBitDecides((shared + b)[2 * n + 1..]);
    }
  }

  lemma BitsOfConcat(a: seq<Byte>, b: seq<Byte>)
    ensures BitsOf(a + b) == BitsOf(a) + BitsOf(b)
  {
    hide BitAt;
    var whole, parts := BitsOf(a + b), BitsOf(a) + BitsOf(b);
    forall i | 0 <= i < |whole| ensures whole[i] == parts[i] {
      if i >= 8 * |a| {
        var k := i - 8 * |a|;
        assert i / 8 == |a| + k / 8 && i % 8 == k % 8;
      }
    }
  }

  /** What is read in place of the fields when the escape is hidden. */
  lemma SeenWhenHidden(zeros: nat, bits: seq<Bit>)
    requires zeros <= 2 && |bits| % 8 == 0 && Straddles(zeros, Pack(bits))
    ensures |bits| >= 8
    ensures BitsOf(Unescape(EscapeFrom(zeros, Pack(bits))))
         == BitsOf(if zeros == 2 then [3] else [0, 3]) + bits[if zeros == 2 then 0 else 8..]
  {
    hide BitsOf, Unescape, EscapeFrom;
    var fields := Pack(bits);
    BitsOfPack(bits);
    if zeros == 2 {
      LateEscape(fields);
      BitsOfConcat([3], fields);
    } else {
      var tail := fields[1..];
      LaterEscape(tail);
      EscapedZero(fields);
      BitsOfConcat([0, 3], tail);
      BitsOfConcat([fields[0]], tail);
      assert [fields[0]] + tail == fields;
      assert bits[8..] == BitsOf(tail);
    }
  }

  lemma EscapedZero(fields: seq<Byte>)
    requires fields != [] && fields[0] == 0
    ensures EscapeFrom(1, fields) == [0] + EscapeFrom(2, fields[1..])
  {
  }

  lemma BitsOfByte(b: Byte)
    ensures BitsOf([b]) == [BitAt(b, 0), BitAt(b, 1), BitAt(b, 2), BitAt(b, 3), BitAt(b, 4), BitAt(b, 5), BitAt(b, 6), BitAt(b, 7)]
  {
    hide BitAt;
  }

  lemma LeadingBits()
    ensures BitsOf([3]) == [0, 0, 0, 0, 0, 0, 1, 1]
    ensures BitsOf([0, 3]) == [0, 0, 0, 0, 0, 0, 0, 0, 0, 0, 0, 0, 0, 0, 1, 1]
  {
    hide BitsOf;
    BitsOfByte(3);
    BitsOfByte(0);
    BitsOfConcat([0], [3]);
    assert [0] + [3] == [0, 3];
  }

  /** The smallest set with an ID and a chroma format. */
  function Plain(id: nat, chroma: nat): AvcSps { AvcSps(id, chroma, 0, 0, 0) }

  /** What stands before the chroma format when the escape is hidden, and how much of it is taken for the ID. */
  lemma SharedLeads(zeros: nat, id: nat)
    requires (zeros == 2 && id >= 63) || (zeros == 1 && id >= 0x3fff)
    ensures var skip := if zeros == 2 then 0 else 8;
            var n := if zeros == 2 then 6 else 14;
            && |Golomb(id)| > skip
            && var shared := BitsOf(if zeros == 2 then [3] else [0, 3]) + Golomb(id)[skip..];
               Leads(shared, n) && |shared| > 2 * n + 1
  {
    hide BitsOf, Golomb, LeadingZeros;
    LeadingBits();
    GolombLeads(id, []);
    ManyZeros(id);
    assert Golomb(id) + [] == Golomb(id);
  }

  lemma SharedBits(head: seq<Bit>, id: seq<Bit>, rest: seq<Bit>, skip: nat)
    requires skip <= |id|
    ensures head + (id + rest)[skip..] == (head + id[skip..]) + rest
  {
  }

  lemma HiddenMisread(constraints: Byte, level: Byte, id: nat, a: seq<Bit>, b: seq<Bit>)
    requires HidesEscape(constraints, level, id)
    requires |PrintAvc(Plain(id, 0), a)| % 8 == 0 && |PrintAvc(Plain(id, 1), b)| % 8 == 0
    ensures !ReadRight(constraints, level, Plain(id, 0), a) || !ReadRight(constraints, level, Plain(id, 1), b)
  {
    hide AvcFields, BitsOf, Unescape, EscapeFrom, Pack, Straddles, Golomb, Leads;
    var zeros := ZerosBefore(constraints, level);
    var head := BitsOf(if zeros == 2 then [3] else [0, 3]);
    var skip := if zeros == 2 then 0 else 8;
    HidesIsStraddles(constraints, level, Plain(id, 0), a);
    HidesIsStraddles(constraints, level, Plain(id, 1), b);
    SeenWhenHidden(zeros, PrintAvc(Plain(id, 0), a));
    SeenWhenHidden(zeros, PrintAvc(Plain(id, 1), b));
    SharedLeads(zeros, id);
    var p, q := Golomb(0) + PrintDepths(0, 0, a), Golomb(1) + PrintDepths(0, 0, b);
    SharedBits(head, Golomb(id), p, skip);
    SharedBits(head, Golomb(id), q, skip);
    SharedStart(head + Golomb(id)[skip..], p, q, if zeros == 2 then 6 else 14);
  }

  lemma Aligned(s: AvcSps) returns (rest: seq<Bit>)
    ensures |PrintAvc(s, rest)| % 8 == 0
  {
    hide Golomb;
    var n := |PrintAvc(s, [])|;
    rest := ZeroBits((8 - n % 8) % 8);
    assert |PrintAvc(s, rest)| == n + |rest|;
  }

  ghost predicate AllReadRight(constraints: Byte, level: Byte, id: nat) {
    forall s, rest :: ValidAvc(s) && s.id == id && |PrintAvc(s, rest)| % 8 == 0 ==> ReadRight(constraints, level, s, rest)
  }

  /**
   For every ID and the two bytes before it: every parameter set with them is
   read right if and only if they do not hide an emulation prevention byte.
   */
  lemma ReadRightExactly(constraints: Byte, level: Byte, id: nat)
    requires Coded(id)
    ensures AllReadRight(constraints, level, id) <==> !HidesEscape(constraints, level, id)
  {
    hide HidesEscape, ReadRight, PrintAvc;
    if HidesEscape(constraints, level, id) {
      var a := Aligned(Plain(id, 0));
      var b := Aligned(Plain(id, 1));
      HiddenMisread(constraints, level, id, a, b);
    } else {
      forall s, rest | ValidAvc(s) && s.id == id && |PrintAvc(s, rest)| % 8 == 0
        ensures ReadRight(constraints, level, s, rest)
      {
        RightUnlessHidden(constraints, level, s, rest);
      }
    }
  }

  // ---- From the byte stream to the AVC record -----------------------------

  ghost predicate CarriesAvc(
    profile: Byte, constraints: Byte, level: Byte, s: AvcSps, rest: seq<Bit>, header: Byte, nals: seq<Nal>, zeros: seq<nat>)
  {
    && ValidAvc(s) && |PrintAvc(s, rest)| % 8 == 0 && profile in HIGH_PROFILES && Carried(nals, zeros)
    && Parameter(H264, nals, 7) == Ok(NalOf([header], AvcPayload(profile, constraints, level, s, rest)))
  }

  lemma DepthsDiffer(out: seq<Byte>, d: Depths, e: Depths)
    requires Accepted(d.chroma, d.luma, d.chromaDepth) && Accepted(e.chroma, e.luma, e.chromaDepth)
    requires out + AvcDepths(d) == out + AvcDepths(e)
    ensures d == e
  {
    var n := |out|;
    assert (out + AvcDepths(d))[n..] == AvcDepths(d) && (out + AvcDepths(e))[n..] == AvcDepths(e);
    assert AvcDepths(d)[0] == AvcDepths(e)[0] && AvcDepths(d)[1] == AvcDepths(e)[1] && AvcDepths(d)[2] == AvcDepths(e)[2];
  }

  /** The record for a parameter set out of which these fields were read. */
  function RecordWith(seen: Parsed<Depths>, sps: Nal, pps: Result<Nal>): Result<seq<Byte>> {
    if seen.Fail? then Err
    else AvcExpected(AvcSps(0, seen.value.chroma, 0, seen.value.luma, seen.value.chromaDepth), sps, pps)
  }

  /**
   For every high-profile AVC parameter set, escaped and framed with any other
   units in any way Annex B allows, the record `codec_private` returns is made
   of what it reads in place of the fields.
   */
  lemma AvcRecordSeen(
    profile: Byte, constraints: Byte, level: Byte, s: AvcSps, rest: seq<Bit>, header: Byte, nals: seq<Nal>, zeros: seq<nat>)
    requires CarriesAvc(profile, constraints, level, s, rest, header, nals, zeros)
    ensures CodecPrivateOf(H264, Framed(nals, zeros))
         == RecordWith(FieldsSeen(constraints, level, s, rest),
                       NalOf([header], AvcPayload(profile, constraints, level, s, rest)), Parameter(H264, nals, 8))
  {
    hide AvcFields, PrintAvc, BitsOf, Unescape, Escape, Framed, Units, Parameter, AvcDepths, ToBytes, WellFormed,
         ValidAvc, EscapeFrom, Pack;
    var fields := Pack(PrintAvc(s, rest));
    var sps := NalOf([header], AvcPayload(profile, constraints, level, s, rest));
    UnitsOfFramed(nals, zeros);
    EscapedHead(profile, constraints, level, fields);
    var seen := EscapeFrom(ZerosBefore(constraints, level), fields);
    assert sps == [header, profile, constraints, level] + seen;
    assert sps[4..] == seen;
    AvcFieldsBound(BitsOf(Unescape(seen)));
  }

  /** So it is the right one exactly when the fields are read right, or a unit is missing or too long. */
  lemma AvcRecordExactly(
    profile: Byte, constraints: Byte, level: Byte, s: AvcSps, rest: seq<Bit>, header: Byte, nals: seq<Nal>, zeros: seq<nat>)
    requires CarriesAvc(profile, constraints, level, s, rest, header, nals, zeros)
    ensures var sps, pps := NalOf([header], AvcPayload(profile, constraints, level, s, rest)), Parameter(H264, nals, 8);
            (CodecPrivateOf(H264, Framed(nals, zeros)) == AvcExpected(s, sps, pps)) <==>
            (pps.Err? || !Fits(sps) || !Fits(pps.value) || ReadRight(constraints, level, s, rest))
  {
    hide AvcFields, PrintAvc, BitsOf, Unescape, Escape, Framed, Units, Parameter, AvcDepths, ToBytes, WellFormed,
         ValidAvc, EscapeFrom, Pack;
    AvcRecordSeen(profile, constraints, level, s, rest, header, nals, zeros);
    var sps, pps := NalOf([header], AvcPayload(profile, constraints, level, s, rest)), Parameter(H264, nals, 8);
    var fields := Pack(PrintAvc(s, rest));
    EscapedHead(profile, constraints, level, fields);
    assert |sps| >= 4;
    var d := FieldsSeen(constraints, level, s, rest);
    AvcFieldsBound(BitsOf(Unescape(EscapeFrom(ZerosBefore(constraints, level), fields))));
    if pps.Ok? && Fits(sps) && Fits(pps.value) && d.Done? && Accepted(s.chroma, s.luma, s.chromaDepth) {
      var out := [1, sps[1], sps[2], sps[3], 0xff, 0xe1] + SizedBytes(sps) + [1] + SizedBytes(pps.value);
      var e := Depths(s.chroma, s.luma, s.chromaDepth);
      assert out + AvcDepths(d.value) == out + AvcDepths(e) <==> d.value == e by {
        if out + AvcDepths(d.value) == out + AvcDepths(e) {
          DepthsDiffer(out, d.value, e);
        }
      }
    }
  }

  /** So the record is right whenever no emulation prevention byte is hidden, whatever the level byte. */
  lemma AvcRoundTrip(
    profile: Byte, constraints: Byte, level: Byte, s: AvcSps, rest: seq<Bit>, header: Byte, nals: seq<Nal>, zeros: seq<nat>)
    requires CarriesAvc(profile, constraints, level, s, rest, header, nals, zeros)
    requires !HidesEscape(constraints, level, s.id)
    ensures CodecPrivateOf(H264, Framed(nals, zeros))
         == AvcExpected(s, NalOf([header], AvcPayload(profile, constraints, level, s, rest)), Parameter(H264, nals, 8))
  {
    RightUnlessHidden(constraints, level, s, rest);
    AvcRecordExactly(profile, constraints, level, s, rest, header, nals, zeros);
  }

  /** In particular for every ID that section 7.4.2.1.1 of H.264 allows. */
  lemma LegalAvcRoundTrip(
    profile: Byte, constraints: Byte, level: Byte, s: AvcSps, rest: seq<Bit>, header: Byte, nals: seq<Nal>, zeros: seq<nat>)
    requires CarriesAvc(profile, constraints, level, s, rest, header, nals, zeros) && s.id <= 31
    ensures CodecPrivateOf(H264, Framed(nals, zeros))
         == AvcExpected(s, NalOf([header], AvcPayload(profile, constraints, level, s, rest)), Parameter(H264, nals, 8))
  {
    AvcRoundTrip(profile, constraints, level, s, rest, header, nals, zeros);
  }

  // ---- A set that is misread ----------------------------------------------

  const SEVEN_ZEROS: seq<Bit> := [0, 0, 0, 0, 0, 0, 0]

  /** ID 129, chroma format 3, luma depth 9 and chroma depth 8 bits; H.264 stops at ID 31. */
  const HIGH_ID := AvcSps(129, 3, 0, 1, 0)

  lemma SmallCodes()
    ensures Golomb(0) == [1] && Golomb(1) == [0, 1, 0] && Golomb(3) == [0, 0, 1, 0, 0]
  {
    assert LeadingZeros(1) == 1 + LeadingZeros(0) && LeadingZeros(3) == 1 + LeadingZeros(1);
    SmallPowers();
    assert Fixed(0, 1) == Fixed(0, 0) + [0] && Fixed(0, 2) == Fixed(0, 1) + [0];
    assert ZeroBits(1) == [0] + ZeroBits(0) && ZeroBits(2) == [0] + ZeroBits(1);
  }

  lemma CodeIs(v: nat, n: nat)
    requires Power2(n) <= v + 1 < 2 * Power2(n)
    ensures Golomb(v) == ZeroBits(n) + ([1] + Fixed(v + 1 - Power2(n), n))
  {
    hide ZeroBits, Fixed, LeadingZeros;
    var m := LeadingZeros(v);
    if m < n {
      Power2Grows(m + 1, n);
    } else if n < m {
      Power2Grows(n + 1, m);
    }
  }

  lemma FixedStep(v: nat, width: nat)
    requires width > 0
    ensures Fixed(v, width) == Fixed(v / 2, width - 1) + [v % 2]
  {
  }

  lemma FixedNothing(v: nat)
    ensures Fixed(v, 0) == []
  {
  }

  lemma SomeZeros()
    ensures ZeroBits(6) == [0, 0, 0, 0, 0, 0] && ZeroBits(7) == SEVEN_ZEROS
  {
    assert ZeroBits(2) == [0, 0];
    assert ZeroBits(4) == [0, 0] + ZeroBits(2);
    assert ZeroBits(6) == [0, 0] + ZeroBits(4);
  }

  lemma CodeOf129()
    ensures Golomb(129) == [0, 0, 0, 0, 0, 0, 0, 1, 0, 0, 0, 0, 0, 1, 0]
  {
    hide Golomb, Fixed, Power2, ZeroBits;
    MorePowers();
    CodeIs(129, 7);
    FixedStep(2, 7);
    FixedStep(1, 6);
    FixedStep(0, 5);
    FixedStep(0, 4);
    FixedStep(0, 3);
    FixedStep(0, 2);
    FixedStep(0, 1);
    FixedNothing(0);
    SomeZeros();
  }

  lemma CodeOf95()
    ensures Golomb(95) == [0, 0, 0, 0, 0, 0, 1, 1, 0, 0, 0, 0, 0]
  {
    hide Golomb, Fixed, Power2, ZeroBits;
    MorePowers();
    CodeIs(95, 6);
    FixedStep(32, 6);
    FixedStep(16, 5);
    FixedStep(8, 4);
    FixedStep(4, 3);
    FixedStep(2, 2);
    FixedStep(1, 1);
    FixedNothing(0);
    SomeZeros();
  }

  lemma MorePowers()
    ensures Power2(6) == 64 && Power2(7) == 128
  {
    assert Power2(4) == 16;
  }

  /** The bits of the set, and what they look like after an unseen emulation prevention byte. */
  lemma HighIdBits()
    ensures var bits := PrintAvc(HIGH_ID, SEVEN_ZEROS);
            && |bits| == 32 && bits[24..] == [1, 0, 0, 0, 0, 0, 0, 0]
            && BitsOf([3]) + bits == PrintAvc(AvcSps(95, 3, 0, 3, 1), [0, 0, 0, 1, 0, 1] + SEVEN_ZEROS)
  {
    hide Golomb, BitsOf;
    SmallCodes();
    CodeOf129();
    CodeOf95();
    LeadingBits();
    assert Fixed(0, 1) == Fixed(0, 0) + [0];
  }

  lemma HighIdSeen()
    ensures |PrintAvc(HIGH_ID, SEVEN_ZEROS)| % 8 == 0
    ensures var seen := FieldsSeen(0, 0, HIGH_ID, SEVEN_ZEROS); seen.Done? && seen.value == Depths(3, 3, 1)
  {
    hide AvcFields, BitsOf, Unescape, EscapeFrom, Pack, PrintAvc, Straddles;
    HighIdBits();
    HidesIsStraddles(0, 0, HIGH_ID, SEVEN_ZEROS);
    SeenWhenHidden(2, PrintAvc(HIGH_ID, SEVEN_ZEROS));
    AvcRead(AvcSps(95, 3, 0, 3, 1), [0, 0, 0, 1, 0, 1] + SEVEN_ZEROS);
  }

  const HIGH_ID_SPS: Nal := NalOf([0x67], HighIdPayload())

  function HighIdPayload(): seq<Byte> {
    HighIdBits();
    AvcPayload(100, 0, 0, HIGH_ID, SEVEN_ZEROS)
  }

  lemma HighIdCarried()
    ensures ValidPayload(HighIdPayload()) && |HighIdPayload()| == 7
  {
    hide PrintAvc, ByteOf;
    HighIdBits();
    var bits := PrintAvc(HIGH_ID, SEVEN_ZEROS);
    SmallByte(bits[24..32]);
    assert bits[24..32] == bits[24..] && bits[24..32][0] == 1;
    HighIdIs();
    var payload := HighIdPayload();
    assert payload[6] == Pack(bits)[3] == ByteOf(bits[24..32]);
  }

  lemma {:induction false} EscapeLength(zeros: nat, payload: seq<Byte>)
    requires zeros <= 2
    ensures |payload| <= |EscapeFrom(zeros, payload)| <= 2 * |payload|
    decreases |payload|
  {
    if payload != [] {
      var b := payload[0];
      var next := if b == 0 then if zeros == 2 && b <= 3 then 1 else zeros + 1 else 0;
      EscapeLength(next, payload[1..]);
    }
  }

  const PPS: Nal := [0x68]

  lemma HighIdStream()
    ensures CarriesAvc(100, 0, 0, HIGH_ID, SEVEN_ZEROS, 0x67, [HIGH_ID_SPS, PPS], [1, 1, 0])
    ensures Parameter(H264, [HIGH_ID_SPS, PPS], 8) == Ok(PPS) && 4 <= |HIGH_ID_SPS| && Fits(HIGH_ID_SPS) && Fits(PPS)
  {
    hide PrintAvc, EscapeFrom, HighIdPayload, WellFormed;
    HighIdBits();
    HighIdCarried();
    NalWellFormed([0x67], HighIdPayload());
    EscapeLength(0, HighIdPayload());
    ShortUnit();
    var nals := [HIGH_ID_SPS, PPS];
    assert HIGH_ID_SPS[0] == 0x67;
    assert nals[0] == HIGH_ID_SPS && nals[1..] == [PPS];
    HighIdIs();
  }

  lemma HighIdIs()
    ensures |PrintAvc(HIGH_ID, SEVEN_ZEROS)| % 8 == 0
    ensures HighIdPayload() == AvcPayload(100, 0, 0, HIGH_ID, SEVEN_ZEROS)
  {
    HighIdBits();
  }

  lemma ShortUnit()
    ensures WellFormed(PPS)
  {
  }

  /**
   A stream of one such parameter set with zero constraint and level bytes: the
   record gives a luma depth of 11 bits and a chroma depth of 9 for a set that
   says 9 and 8.
   */
  lemma HighIdMisread()
    ensures var private := CodecPrivateOf(H264, Framed([HIGH_ID_SPS, PPS], [1, 1, 0]));
            && private == AvcExpected(HIGH_ID.(luma := 3, chromaDepth := 1), HIGH_ID_SPS, Ok(PPS))
            && private != AvcExpected(HIGH_ID, HIGH_ID_SPS, Ok(PPS))
  {
    hide AvcFields, PrintAvc, BitsOf, Unescape, Escape, Framed, Units, Parameter, WellFormed, EscapeFrom, Pack,
         CarriesAvc, HighIdPayload, FieldsSeen;
    HighIdStream();
    HighIdSeen();
    HighIdIs();
    var out := [1, HIGH_ID_SPS[1], HIGH_ID_SPS[2], HIGH_ID_SPS[3], 0xff, 0xe1] + SizedBytes(HIGH_ID_SPS) + [1] + SizedBytes(PPS);
    if out + AvcDepths(Depths(3, 3, 1)) == out + AvcDepths(Depths(3, 1, 0)) {
      DepthsDiffer(out, Depths(3, 3, 1), Depths(3, 1, 0));
    }
    AvcRecordSeen(100, 0, 0, HIGH_ID, SEVEN_ZEROS, 0x67, [HIGH_ID_SPS, PPS], [1, 1, 0]);
  }
}
