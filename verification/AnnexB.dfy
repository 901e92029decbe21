/** remote/src/h264.rs: splitting an Annex B byte stream into NAL units. */
module AnnexB {
  import opened Bytes

  type Nal = seq<Byte>

  /** Where a start code begins, and its length. */
  datatype Start = Start(at: nat, prefix: nat)

  predicate HasLong(data: seq<Byte>, i: nat) {
    i + 4 <= |data| && data[i] == 0 && data[i + 1] == 0 && data[i + 2] == 0 && data[i + 3] == 1
  }

  predicate HasShort(data: seq<Byte>, i: nat) {
    i + 3 <= |data| && data[i] == 0 && data[i + 1] == 0 && data[i + 2] == 1
  }

  /** No three bytes of `s` are a start code prefix. */
  ghost predicate NoStartCode(s: seq<Byte>) { forall i: nat :: !HasShort(s, i) }

  // ---- What the scanner finds ---------------------------------------------

  /** The start codes from `i` on, left to right, without overlap. */
  function Starts(data: seq<Byte>, i: nat): (r: seq<Start>)
    decreases |data| - i
  {
    if i + 3 > |data| then []
    else if HasLong(data, i) then [Start(i, 4)] + Starts(data, i + 4)
    else if HasShort(data, i) then [Start(i, 3)] + Starts(data, i + 3)
    else Starts(data, i + 1)
  }

  function Trimmed(data: seq<Byte>, from: nat, to: nat): (end: nat)
    requires from <= to <= |data|
    ensures from <= end <= to
    ensures end > from ==> data[end - 1] != 0
    ensures forall i :: end <= i < to ==> data[i] == 0
  {
    if to > from && data[to - 1] == 0 then Trimmed(data, from, to - 1) else to
  }

  /** The unit, if any, between two cut points, without trailing zero bytes. */
  function UnitAt(data: seq<Byte>, from: nat, to: nat): seq<Nal> {
    if from <= to <= |data| && from < Trimmed(data, from, to) then [data[from..Trimmed(data, from, to)]] else []
  }

  /** Where the unit before the first of `starts` ends. */
  function Cut(data: seq<Byte>, starts: seq<Start>): nat {
    if starts == [] then |data| else starts[0].at
  }

  /** The units that follow the start codes `starts`. */
  function Cuts(data: seq<Byte>, starts: seq<Start>): seq<Nal> {
    if starts == [] then []
    else UnitAt(data, starts[0].at + starts[0].prefix, Cut(data, starts[1..])) + Cuts(data, starts[1..])
  }

  lemma CutsCons(data: seq<Byte>, first: Start, rest: seq<Start>)
    ensures Cuts(data, [first] + rest)
         == UnitAt(data, first.at + first.prefix, Cut(data, rest)) + Cuts(data, rest)
  {
    assert ([first] + rest)[1..] == rest;
  }

  /** The NAL units of a stream; bytes before the first start code belong to none. */
  function Units(data: seq<Byte>): seq<Nal> { Cuts(data, Starts(data, 0)) }

  // ---- The source's two passes --------------------------------------------

  method FindStarts(data: seq<Byte>) returns (starts: seq<Start>)
    ensures starts == Starts(data, 0)
  {
    starts := [];
    var index := 0;
    while index + 3 <= |data|
      invariant starts + Starts(data, index) == Starts(data, 0)
      decreases |data| - index
    {
      var prefix: nat;
      if HasLong(data, index) {
        prefix := 4;
      } else if HasShort(data, index) {
        prefix := 3;
      } else {
        index := index + 1;
        continue;
      }
      starts := starts + [Start(index, prefix)];
      index := index + prefix;
    }
  }

  ghost predicate Ordered(data: seq<Byte>, starts: seq<Start>) {
    && (forall p :: 0 <= p < |starts| ==> starts[p].at + starts[p].prefix <= |data|)
    && (forall p, q :: 0 <= p < q < |starts| ==> starts[p].at + starts[p].prefix <= starts[q].at)
  }

  lemma OrderedCons(data: seq<Byte>, first: Start, rest: seq<Start>)
    requires first.at + first.prefix <= |data| && Ordered(data, rest)
    requires forall p :: 0 <= p < |rest| ==> first.at + first.prefix <= rest[p].at
    ensures Ordered(data, [first] + rest)
  {
  }

  lemma {:induction false} StartsOrdered(data: seq<Byte>, i: nat)
    ensures Ordered(data, Starts(data, i))
    ensures forall p :: 0 <= p < |Starts(data, i)| ==> i <= Starts(data, i)[p].at
    decreases |data| - i
  {
    if i + 3 > |data| {
    } else if HasLong(data, i) || HasShort(data, i) {
      var first := Start(i, if HasLong(data, i) then 4 else 3);
      StartsOrdered(data, i + first.prefix);
      OrderedCons(data, first, Starts(data, i + first.prefix));
    } else {
      StartsOrdered(data, i + 1);
    }
  }

  lemma UnitAtIs(data: seq<Byte>, from: nat, to: nat)
    requires from <= to <= |data|
    ensures var end := Trimmed(data, from, to);
            UnitAt(data, from, to) == if from < end then [data[from..end]] else []
  {
  }

  /** `annex_b_units`. */
  method AnnexBUnits(data: seq<Byte>) returns (units: seq<Nal>)
    ensures units == Units(data)
  {
    var starts := FindStarts(data);
    StartsOrdered(data, 0);
    units := CollectUnits(data, starts);
  }

  method CollectUnits(data: seq<Byte>, starts: seq<Start>) returns (units: seq<Nal>)
    requires Ordered(data, starts)
    ensures units == Cuts(data, starts)
  {
    hide Trimmed, UnitAt;
    units := [];
    for position := 0 to |starts|
      invariant units + Cuts(data, starts[position..]) == Cuts(data, starts)
    {
      var unitStart := starts[position].at + starts[position].prefix;
      var cut := if position + 1 < |starts| then starts[position + 1].at else |data|;
      var unitEnd := TrimEnd(data, unitStart, cut);
      ghost var rest := starts[position..];
      assert rest[1..] == starts[position + 1..];
      Assoc(units, UnitAt(data, unitStart, cut), Cuts(data, rest[1..]));
      UnitAtIs(data, unitStart, cut);
      if unitStart < unitEnd {
        units := units + [data[unitStart..unitEnd]];
      } else {
        assert units + [] == units;
      }
    }
  }

  method TrimEnd(data: seq<Byte>, unitStart: nat, cut: nat) returns (unitEnd: nat)
    requires unitStart <= cut <= |data|
    ensures unitEnd == Trimmed(data, unitStart, cut)
  {
    unitEnd := cut;
    while unitEnd > unitStart && data[unitEnd - 1] == 0
      invariant unitStart <= unitEnd <= cut
      invariant Trimmed(data, unitStart, unitEnd) == Trimmed(data, unitStart, cut)
    {
      unitEnd := unitEnd - 1;
    }
  }

  // ---- What every unit looks like, whatever the stream --------------------

  ghost predicate WellFormed(nal: Nal) { nal != [] && nal[|nal| - 1] != 0 && NoStartCode(nal) }

  /** No byte from `i` up to the next start code begins one. */
  lemma {:induction false} NothingBefore(data: seq<Byte>, i: nat, k: nat)
    requires i <= k < Cut(data, Starts(data, i))
    ensures !HasShort(data, k)
    decreases |data| - i
  {
    if i + 3 <= |data| && !HasLong(data, i) && !HasShort(data, i) && i < k {
      NothingBefore(data, i + 1, k);
    }
  }

  lemma UnitWellFormed(data: seq<Byte>, from: nat, to: nat)
    requires forall k :: from <= k < to ==> !HasShort(data, k)
    ensures forall nal :: nal in UnitAt(data, from, to) ==> WellFormed(nal)
  {
    forall nal | nal in UnitAt(data, from, to) ensures WellFormed(nal) {
      forall k: nat ensures !HasShort(nal, k) {
        assert HasShort(nal, k) ==> HasShort(data, from + k);
      }
    }
  }

  /** The unit after a start code that ends at `from`, and the ones after that. */
  lemma NextCutsWellFormed(data: seq<Byte>, first: Start, from: nat)
    requires from == first.at + first.prefix
    requires forall nal :: nal in Cuts(data, Starts(data, from)) ==> WellFormed(nal)
    ensures forall nal :: nal in Cuts(data, [first] + Starts(data, from)) ==> WellFormed(nal)
  {
    hide WellFormed, UnitAt, Starts, Cuts;
    var rest := Starts(data, from);
    forall k | from <= k < Cut(data, rest) ensures !HasShort(data, k) {
      NothingBefore(data, from, k);
    }
    UnitWellFormed(data, from, Cut(data, rest));
    CutsCons(data, first, rest);
  }

  lemma {:induction false} CutsWellFormed(data: seq<Byte>, i: nat)
    ensures forall nal :: nal in Cuts(data, Starts(data, i)) ==> WellFormed(nal)
    decreases |data| - i
  {
    hide WellFormed, UnitAt, Cuts;
    if i + 3 > |data| {
      NothingCut(data);
    } else if HasLong(data, i) {
      CutsWellFormed(data, i + 4);
      NextCutsWellFormed(data, Start(i, 4), i + 4);
    } else if HasShort(data, i) {
      CutsWellFormed(data, i + 3);
      NextCutsWellFormed(data, Start(i, 3), i + 3);
    } else {
      CutsWellFormed(data, i + 1);
    }
  }

  lemma NothingCut(data: seq<Byte>)
    ensures Cuts(data, []) == []
  {
  }

  /** For every byte stream: no unit is empty, ends in a zero byte, or holds a start code. */
  lemma UnitsWellFormed(data: seq<Byte>)
    ensures forall nal :: nal in Units(data) ==> WellFormed(nal)
  {
    CutsWellFormed(data, 0);
  }

  // ---- Framing by Annex B and reading back --------------------------------

  /**
   The byte stream format of Annex B: before each unit any number of zero
   bytes and a three-byte start code (a zero byte before it makes the
   four-byte form), and any number of zero bytes at the end.
   */
  function Framed(nals: seq<Nal>, zeros: seq<nat>): (s: seq<Byte>)
    requires |zeros| == |nals| + 1
  {
    if nals == [] then Zeros(zeros[0])
    else Zeros(zeros[0]) + ([0, 0, 1] + (nals[0] + Framed(nals[1..], zeros[1..])))
  }

  lemma FramedNothing(zeros: seq<nat>)
    requires |zeros| == 1
    ensures Framed([], zeros) == Zeros(zeros[0])
  {
  }

  /** The part of `data` from `at` on is `s`. */
  ghost predicate Suffix(data: seq<Byte>, at: nat, s: seq<Byte>) { at <= |data| && data[at..] == s }

  lemma SuffixStep(data: seq<Byte>, at: nat, a: seq<Byte>, b: seq<Byte>)
    requires Suffix(data, at, a + b)
    ensures Suffix(data, at + |a|, b) && data[at..at + |a|] == a
  {
    assert data[at + |a|..] == data[at..][|a|..];
  }

  /** Zero bytes are passed over up to the start code, or to the end. */
  lemma {:induction false} PassZeros(data: seq<Byte>, at: nat, code: nat)
    requires at < code <= |data|
    requires forall k :: at <= k < code ==> data[k] == 0
    requires code == |data| || HasShort(data, code)
    ensures code < |data| ==> Starts(data, at) == Starts(data, code - 1) && HasLong(data, code - 1)
    ensures code == |data| ==> Starts(data, at) == []
    decreases code - at
  {
    if at + 1 < code {
      PassZeros(data, at + 1, code);
    }
  }

  /** A unit is passed over: no start code begins inside it, nor reaches out of it. */
  lemma {:induction false} PassUnit(data: seq<Byte>, at: nat, end: nat)
    requires at <= end <= |data|
    requires forall k :: at <= k && k + 3 <= end ==> !HasShort(data, k)
    requires at < end ==> data[end - 1] != 0
    ensures Starts(data, at) == Starts(data, end)
    decreases end - at
  {
    if at < end {
      assert !HasShort(data, at) && !HasLong(data, at) by {
        assert at + 4 <= end ==> !HasShort(data, at + 1);
      }
      PassUnit(data, at + 1, end);
    }
  }

  /** Trailing zero bytes are trimmed back to the unit. */
  lemma {:induction false} TrimBack(data: seq<Byte>, from: nat, end: nat, to: nat)
    requires from < end <= to <= |data| && data[end - 1] != 0
    requires forall k :: end <= k < to ==> data[k] == 0
    ensures UnitAt(data, from, to) == [data[from..end]]
  {
    if end < to {
      TrimBack(data, from, end, to - 1);
    }
  }

  lemma FramedParts(data: seq<Byte>, at: nat, nals: seq<Nal>, zeros: seq<nat>)
    requires nals != [] && |zeros| == |nals| + 1 && Suffix(data, at, Framed(nals, zeros))
    ensures var code := at + zeros[0];
            var end := code + 3 + |nals[0]|;
            && end <= |data|
            && (forall k :: at <= k < code ==> data[k] == 0)
            && data[code..code + 3] == [0, 0, 1]
            && data[code + 3..end] == nals[0]
            && Suffix(data, end, Framed(nals[1..], zeros[1..]))
  {
    var nal, rest, code := nals[0], Framed(nals[1..], zeros[1..]), at + zeros[0];
    SuffixStep(data, at, Zeros(zeros[0]), [0, 0, 1] + (nal + rest));
    SuffixStep(data, code, [0, 0, 1], nal + rest);
    SuffixStep(data, code + 3, nal, rest);
    forall k | at <= k < code ensures data[k] == 0 {
      assert data[at..code][k - at] == 0;
    }
  }

  lemma NothingFramed(data: seq<Byte>, at: nat, n: nat)
    requires Suffix(data, at, Zeros(n))
    ensures Starts(data, at) == [] && Cuts(data, []) == [] && forall k :: at <= k < |data| ==> data[k] == 0
  {
    forall k | at <= k < |data| ensures data[k] == 0 {
      assert data[at..][k - at] == 0;
    }
    if at < |data| {
      PassZeros(data, at, |data|);
    }
  }

  lemma {:induction false} FramedSuffix(data: seq<Byte>, at: nat, nals: seq<Nal>, zeros: seq<nat>)
    requires |zeros| == |nals| + 1 && Suffix(data, at, Framed(nals, zeros))
    requires forall nal :: nal in nals ==> WellFormed(nal)
    ensures Cuts(data, Starts(data, at)) == nals
    ensures at <= Cut(data, Starts(data, at)) <= |data|
    ensures forall k :: at <= k < Cut(data, Starts(data, at)) ==> data[k] == 0
    decreases |nals|
  {
    hide Starts, UnitAt, WellFormed, Framed, Cuts;
    if nals == [] {
      FramedNothing(zeros);
      NothingFramed(data, at, zeros[0]);
    } else {
      var code := at + zeros[0];
      var end := code + 3 + |nals[0]|;
      FramedParts(data, at, nals, zeros);
      FramedSuffix(data, end, nals[1..], zeros[1..]);
      StartCodeFound(data, at, code);
      UnitPassed(data, code + 3, end, nals[0]);
      TrimBack(data, code + 3, end, Cut(data, Starts(data, end)));
      var first := if at == code then Start(code, 3) else Start(code - 1, 4);
      CutsCons(data, first, Starts(data, end));
      assert nals == [nals[0]] + nals[1..];
    }
  }

  /** After zero bytes and a start code, the scan goes on behind it. */
  lemma StartCodeFound(data: seq<Byte>, at: nat, code: nat)
    requires at <= code && code + 3 <= |data|
    requires data[code..code + 3] == [0, 0, 1]
    requires forall k :: at <= k < code ==> data[k] == 0
    ensures var first := if at == code then Start(code, 3) else Start(code - 1, 4);
            Starts(data, at) == [first] + Starts(data, code + 3)
  {
    assert HasShort(data, code) by {
      assert data[code..code + 3][0] == 0 && data[code..code + 3][1] == 0 && data[code..code + 3][2] == 1;
    }
    if at < code {
      PassZeros(data, at, code);
    }
  }

  lemma UnitPassed(data: seq<Byte>, from: nat, end: nat, nal: Nal)
    requires from <= end <= |data| && data[from..end] == nal && WellFormed(nal)
    ensures from < end && data[end - 1] != 0 && Starts(data, from) == Starts(data, end)
  {
    forall k | from <= k && k + 3 <= end ensures !HasShort(data, k) {
      assert !HasShort(nal, k - from);
    }
    PassUnit(data, from, end);
  }

  /** Units framed in any way Annex B allows are read back exactly. */
  lemma UnitsOfFramed(nals: seq<Nal>, zeros: seq<nat>)
    requires |zeros| == |nals| + 1
    requires forall nal :: nal in nals ==> WellFormed(nal)
    ensures Units(Framed(nals, zeros)) == nals
  {
    FramedSuffix(Framed(nals, zeros), 0, nals, zeros);
  }
}
