/** `annex_b_to_length_prefixed` of remote/src/h264.rs. */
module Avcc {
  import opened Bytes
  import opened AnnexB
  import opened ParameterSets
  import opened Matroska
  import opened Playback

  datatype AccessUnit = AccessUnit(
    data: seq<Byte>, videoSet: Option<Nal>, sequenceSet: Option<Nal>, pictureSet: Option<Nal>)

  /** The last unit of a kind. */
  function LastOf(codec: Codec, units: seq<Nal>, kind: nat): (last: Option<Nal>)
    requires forall nal :: nal in units ==> nal != []
    ensures last.Some? ==> last.value in units && last.value != [] && Kind(codec, last.value) == kind
    ensures last.None? ==> forall nal :: nal in units && nal != [] ==> Kind(codec, nal) != kind
  {
    if units == [] then None
    else
      var n := |units| - 1;
      assert units[n] in units && forall nal :: nal in units[..n] ==> nal in units;
      assert forall nal :: nal in units ==> nal in units[..n] || nal == units[n];
      if Kind(codec, units[n]) == kind then Some(units[n]) else LastOf(codec, units[..n], kind)
  }

  /** It is the last: no later unit is of the kind. */
  lemma {:induction false} LastIsLast(codec: Codec, units: seq<Nal>, kind: nat) returns (i: nat)
    requires (forall nal :: nal in units ==> nal != []) && LastOf(codec, units, kind).Some?
    ensures i < |units| && units[i] == LastOf(codec, units, kind).value
    ensures forall j :: i < j < |units| ==> units[j] in units && Kind(codec, units[j]) != kind
    decreases |units|
  {
    var n := |units| - 1;
    assert units[n] in units && forall nal :: nal in units[..n] ==> nal in units;
    if Kind(codec, units[n]) == kind {
      return n;
    }
    i := LastIsLast(codec, units[..n], kind);
    forall j | i < j < |units| ensures units[j] in units && Kind(codec, units[j]) != kind {
      assert j < n ==> units[j] == units[..n][j];
    }
  }

  function SetKinds(codec: Codec): (nat, nat, nat) {
    match codec
    case H264 => (64, 7, 8) // No H.264 unit is of kind 64: there is no video parameter set.
    case H265 => (32, 33, 34)
  }

  method ToLengthPrefixed(data: seq<Byte>, codec: Codec) returns (r: Result<AccessUnit>)
    ensures (forall nal :: nal in Units(data) ==> nal != [])
    ensures r.Err? <==> Units(data) == [] || exists nal :: nal in Units(data) && |nal| >= 0x1_0000_0000
    ensures r.Ok? ==>
              && ReadUnits(r.value.data) == Some(Units(data))
              && r.value.videoSet == LastOf(codec, Units(data), SetKinds(codec).0)
              && r.value.sequenceSet == LastOf(codec, Units(data), SetKinds(codec).1)
              && r.value.pictureSet == LastOf(codec, Units(data), SetKinds(codec).2)
  {
    hide Units, ReadUnits;
    UnitsWellFormed(data);
    var units := AnnexBUnits(data);
    PrefixedUnlessLong(units);
    if units == [] {
      return Err;
    }
    UnitsReadIfOk(units);
    var videoSet, sequenceSet, pictureSet := FindSets(units, codec);
    var output :- PrefixUnits(units);
    return Ok(AccessUnit(output, videoSet, sequenceSet, pictureSet));
  }

  lemma UnitsReadIfOk(units: seq<Nal>)
    ensures LengthPrefixed(units).Ok? ==> ReadUnits(LengthPrefixed(units).value) == Some(units)
  {
    if LengthPrefixed(units).Ok? {
      UnitsRead(units);
    }
  }

  lemma {:induction false} PrefixedUnlessLong(units: seq<Nal>)
    ensures LengthPrefixed(units).Err? <==> exists nal :: nal in units && |nal| >= 0x1_0000_0000
  {
    hide ToBytes;
    if units != [] {
      PrefixedUnlessLong(units[1..]);
      assert forall nal :: nal in units <==> nal == units[0] || nal in units[1..];
    }
  }

  lemma NoLast(codec: Codec)
    ensures forall kind :: LastOf(codec, [], kind) == None
  {
  }

  lemma LastOfStep(codec: Codec, units: seq<Nal>, unit: Nal, kind: nat)
    requires unit != [] && forall nal :: nal in units ==> nal != []
    ensures (forall nal :: nal in units + [unit] ==> nal != [])
    ensures LastOf(codec, units + [unit], kind) == if Kind(codec, unit) == kind then Some(unit) else LastOf(codec, units, kind)
  {
    assert (units + [unit])[..|units|] == units;
  }

  /** The part of the loop that keeps the parameter sets, the last of each kind. */
  method FindSets(units: seq<Nal>, codec: Codec)
    returns (videoSet: Option<Nal>, sequenceSet: Option<Nal>, pictureSet: Option<Nal>)
    requires forall nal :: nal in units ==> nal != []
    ensures videoSet == LastOf(codec, units, SetKinds(codec).0)
    ensures sequenceSet == LastOf(codec, units, SetKinds(codec).1)
    ensures pictureSet == LastOf(codec, units, SetKinds(codec).2)
  {
    hide LastOf;
    videoSet, sequenceSet, pictureSet := None, None, None;
    NoLast(codec);
    for i := 0 to |units|
      invariant forall nal :: nal in units[..i] ==> nal in units && nal != []
      invariant videoSet == LastOf(codec, units[..i], SetKinds(codec).0)
      invariant sequenceSet == LastOf(codec, units[..i], SetKinds(codec).1)
      invariant pictureSet == LastOf(codec, units[..i], SetKinds(codec).2)
    {
      var unit := units[i];
      assert units[..i + 1] == units[..i] + [unit] && unit in units;
      LastOfStep(codec, units[..i], unit, SetKinds(codec).0);
      LastOfStep(codec, units[..i], unit, SetKinds(codec).1);
      LastOfStep(codec, units[..i], unit, SetKinds(codec).2);
      match (codec, Kind(codec, unit))
      case (H264, 7) => sequenceSet := Some(unit);
      case (H265, 33) => sequenceSet := Some(unit);
      case (H264, 8) => pictureSet := Some(unit);
      case (H265, 34) => pictureSet := Some(unit);
      case (H265, 32) => videoSet := Some(unit);
      case _ =>
    }
    assert units[..|units|] == units;
  }
}
