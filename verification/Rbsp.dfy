/** Emulation prevention: section 7.4.1 of H.264 (7.4.2 of H.265) and its removal by `Bits::new` of remote/src/matroska.rs. */
module Rbsp {
  import opened Bytes
  import opened AnnexB

  /** `zeros` is how many zero bytes (0 to 2) come right before the payload. */
  function EscapeFrom(zeros: nat, payload: seq<Byte>): seq<Byte>
    requires zeros <= 2
    decreases |payload|
  {
    if payload == [] then []
    else
      var b := payload[0];
      if zeros == 2 && b <= 3 then [3, b] + EscapeFrom(if b == 0 then 1 else 0, payload[1..])
      else [b] + EscapeFrom(if b == 0 then zeros + 1 else 0, payload[1..])
  }

  /** The payload with a 3 byte before every 0 to 3 that follows two zero bytes. */
  function Escape(payload: seq<Byte>): seq<Byte> { EscapeFrom(0, payload) }

  function UnescapeFrom(zeros: nat, escaped: seq<Byte>): seq<Byte>
    decreases |escaped|
  {
    if escaped == [] then []
    else if zeros >= 2 && escaped[0] == 3 then UnescapeFrom(0, escaped[1..])
    else [escaped[0]] + UnescapeFrom(if escaped[0] == 0 then zeros + 1 else 0, escaped[1..])
  }

  function Unescape(escaped: seq<Byte>): seq<Byte> { UnescapeFrom(0, escaped) }

  /** `Bits::new`: the loop over the escaped bytes. */
  method RemoveEmulationPrevention(escaped: seq<Byte>) returns (bytes: seq<Byte>)
    ensures bytes == Unescape(escaped)
  {
    bytes := [];
    var zeros: nat := 0;
    for i := 0 to |escaped|
      invariant bytes + UnescapeFrom(zeros, escaped[i..]) == Unescape(escaped)
    {
      var byte := escaped[i];
      assert escaped[i..][1..] == escaped[i + 1..];
      if zeros >= 2 && byte == 3 {
        zeros := 0;
        continue;
      }
      Assoc(bytes, [byte], UnescapeFrom(if byte == 0 then zeros + 1 else 0, escaped[i + 1..]));
      bytes := bytes + [byte];
      zeros := if byte == 0 then zeros + 1 else 0;
    }
  }

  /** Removing the emulation prevention bytes undoes adding them. */
  lemma {:induction false} UnescapeOfEscape(zeros: nat, payload: seq<Byte>)
    requires zeros <= 2
    ensures UnescapeFrom(zeros, EscapeFrom(zeros, payload)) == payload
    decreases |payload|
  {
    if payload != [] {
      var b := payload[0];
      var escape := zeros == 2 && b <= 3;
      var next := if b == 0 then if escape then 1 else zeros + 1 else 0;
      var tail := EscapeFrom(next, payload[1..]);
      UnescapeOfEscape(next, payload[1..]);
      assert ([b] + tail)[1..] == tail;
      if escape {
        assert ([3, b] + tail)[1..] == [b] + tail;
      }
    }
  }

  /** With `zeros` zero bytes in front, no three bytes are two zeros and then 0, 1 or 2. */
  ghost predicate Clean(zeros: nat, s: seq<Byte>)
    requires zeros <= 2
    decreases |s|
  {
    s == [] || ((zeros == 2 ==> s[0] > 2) && Clean(if s[0] != 0 then 0 else zeros + 1, s[1..]))
  }

  lemma {:induction false} EscapeIsClean(zeros: nat, payload: seq<Byte>)
    requires zeros <= 2
    ensures Clean(zeros, EscapeFrom(zeros, payload))
    decreases |payload|
  {
    if payload != [] {
      var b := payload[0];
      var escape := zeros == 2 && b <= 3;
      var next := if b == 0 then if escape then 1 else zeros + 1 else 0;
      var tail := EscapeFrom(next, payload[1..]);
      EscapeIsClean(next, payload[1..]);
      assert ([b] + tail)[1..] == tail;
      if escape {
        assert ([3, b] + tail)[1..] == [b] + tail;
        assert Clean(0, [b] + tail);
      }
    }
  }

  lemma {:induction false} CleanHasNoStartCode(zeros: nat, s: seq<Byte>, i: nat)
    requires zeros <= 2 && Clean(zeros, s)
    ensures !HasShort(s, i)
    decreases |s|
  {
    if i == 0 {
      if |s| >= 3 && s[0] == 0 && s[1] == 0 {
        CleanStart(zeros, s);
      }
    } else if s != [] {
      assert HasShort(s, i) ==> HasShort(s[1..], i - 1);
      CleanHasNoStartCode(if s[0] != 0 then 0 else zeros + 1, s[1..], i - 1);
    }
  }

  lemma CleanStart(zeros: nat, s: seq<Byte>)
    requires zeros <= 2 && |s| >= 3 && Clean(zeros, s) && s[0] == 0 && s[1] == 0
    ensures s[2] > 2
  {
    var one, two := s[1..], s[2..];
    assert one[1..] == two;
    assert Clean(zeros + 1, one);
    assert Clean(2, two);
  }

  /** A NAL unit: a header of one byte (H.264) or two (H.265) and the escaped payload. */
  function NalOf(header: seq<Byte>, payload: seq<Byte>): Nal { header + Escape(payload) }

  ghost predicate ValidHeader(header: seq<Byte>) { 1 <= |header| <= 2 && header[|header| - 1] != 0 }

  ghost predicate ValidPayload(payload: seq<Byte>) { payload != [] && payload[|payload| - 1] != 0 }

  lemma {:induction false} EscapeKeepsLast(zeros: nat, payload: seq<Byte>)
    requires zeros <= 2 && payload != []
    ensures var e := EscapeFrom(zeros, payload); e != [] && e[|e| - 1] == payload[|payload| - 1]
    decreases |payload|
  {
    if |payload| > 1 {
      var b := payload[0];
      var next := if b == 0 then if zeros == 2 then 1 else zeros + 1 else 0;
      EscapeKeepsLast(next, payload[1..]);
    }
  }

  /** Escaped payloads make units the byte stream format can carry. */
  lemma NalWellFormed(header: seq<Byte>, payload: seq<Byte>)
    requires ValidHeader(header) && ValidPayload(payload)
    ensures WellFormed(NalOf(header, payload))
  {
    var escaped := Escape(payload);
    var nal := NalOf(header, payload);
    EscapeKeepsLast(0, payload);
    EscapeIsClean(0, payload);
    forall i: nat ensures !HasShort(nal, i) {
      if i >= |header| {
        CleanHasNoStartCode(0, escaped, i - |header|);
        assert HasShort(nal, i) ==> HasShort(escaped, i - |header|);
      } else {
        assert nal[|header| - 1] != 0;
        assert HasShort(nal, i) ==> i + 2 == |header| - 1 || i + 2 > |header| - 1;
      }
    }
  }

  function NalsOf(headers: seq<seq<Byte>>, payloads: seq<seq<Byte>>): (nals: seq<Nal>)
    requires |headers| == |payloads|
    ensures |nals| == |payloads|
    ensures forall i :: 0 <= i < |nals| ==> nals[i] == NalOf(headers[i], payloads[i])
  {
    seq(|payloads|, i requires 0 <= i < |payloads| => NalOf(headers[i], payloads[i]))
  }

  /**
   The whole chain, for every list of payloads: escaped, given headers and
   framed in any way Annex B allows, they come back as exactly those units,
   none holding a start code, and each unit's payload unescapes to the original.
   */
  lemma StreamRoundTrip(headers: seq<seq<Byte>>, payloads: seq<seq<Byte>>, zeros: seq<nat>)
    requires |headers| == |payloads| && |zeros| == |payloads| + 1
    requires forall h :: h in headers ==> ValidHeader(h)
    requires forall p :: p in payloads ==> ValidPayload(p)
    ensures var units := Units(Framed(NalsOf(headers, payloads), zeros));
            && units == NalsOf(headers, payloads)
            && (forall nal :: nal in units ==> NoStartCode(nal))
            && forall i :: 0 <= i < |units| ==> Unescape(units[i][|headers[i]|..]) == payloads[i]
  {
    var nals := NalsOf(headers, payloads);
    forall i | 0 <= i < |nals|
      ensures WellFormed(nals[i]) && Unescape(nals[i][|headers[i]|..]) == payloads[i]
    {
      assert headers[i] in headers && payloads[i] in payloads;
      NalWellFormed(headers[i], payloads[i]);
      assert nals[i][|headers[i]|..] == Escape(payloads[i]);
      UnescapeOfEscape(0, payloads[i]);
    }
    UnitsOfFramed(nals, zeros);
  }
}
