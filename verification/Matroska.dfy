/** `Matroska` of remote/src/matroska.rs: a recording as a stream of complete clusters, and playing it back. */
module Matroska {
  import opened Bytes
  import opened AnnexB
  import opened ParameterSets
  import opened Ebml

  type Dimension = n: int | 0 <= n < 0x1_0000_0000

  datatype VideoFormat = VideoFormat(width: Dimension, height: Dimension, codec: Codec)

  datatype EncodedFrame = EncodedFrame(streamId: nat, timestampUs: nat, keyframe: bool, data: seq<Byte>)

  /** No buffer is larger; it keeps every element below the size `element` can write. */
  const MAX_FRAME: nat := 0x1_0000_0000_0000

  const EBML: nat := 0x1a45dfa3
  const INFO: nat := 0x1549a966
  const TRACKS: nat := 0x1654ae6b
  const CLUSTER: nat := 0x1f43b675
  const TIMESTAMP: nat := 0xe7
  const SIMPLE_BLOCK: nat := 0xa3

  // ---- Writing ------------------------------------------------------------

  /** Each unit after its 32-bit length. */
  function LengthPrefixed(units: seq<Nal>): Result<seq<Byte>> {
    if units == [] then Ok([])
    else if |units[0]| >= 0x1_0000_0000 then Err
    else
      var rest :- LengthPrefixed(units[1..]);
      Ok(ToBytes(|units[0]|, 4) + (units[0] + rest))
  }

  /** `uint`: a number in as few bytes as it needs, but at least one. */
  function UintItem(id: nat, value: nat): (item: Item)
    ensures item.id == id && |item.data| <= 8
  {
    Item(id, Shortest(ToBytes(value, 8)))
  }

  function Ascii(text: string): (s: seq<Byte>)
    ensures |s| == |text|
  {
    seq(|text|, i requires 0 <= i < |text| => (text[i] as int % 128) as Byte)
  }

  function CodecName(codec: Codec): (name: string)
    ensures |name| < 32
  {
    match codec
    case H264 => "V_MPEG4/ISO/AVC"
    case H265 => "V_MPEGH/ISO/HEVC"
  }

  ghost predicate Short(items: seq<Item>, limit: nat) {
    forall i :: 0 <= i < |items| ==> ValidId(items[i].id) && |items[i].data| <= limit
  }

  function HeaderItems(): seq<Item> {
    [UintItem(0x4286, 1), UintItem(0x42f7, 1), UintItem(0x42f2, 4), UintItem(0x42f3, 8),
     Item(0x4282, Ascii("matroska")), UintItem(0x4287, 4), UintItem(0x4285, 2)]
  }

  function InfoItems(): seq<Item> {
    [UintItem(0x2ad7b1, 1_000_000), Item(0x4d80, Ascii("MeshRMM")), Item(0x5741, Ascii("MeshRMM"))]
  }

  function VideoItems(format: VideoFormat): seq<Item> {
    [UintItem(0xb0, format.width), UintItem(0xba, format.height)]
  }

  function TrackItems(format: VideoFormat, private: seq<Byte>, video: seq<Byte>): seq<Item> {
    [UintItem(0xd7, 1), UintItem(0x73c5, 1), UintItem(0x83, 1), UintItem(0x9c, 0),
     Item(0x86, Ascii(CodecName(format.codec))), Item(0x63a2, private), Item(0xe0, video)]
  }

  lemma ShortLists(format: VideoFormat, private: seq<Byte>, video: seq<Byte>)
    requires |private| <= 0x100_0000 && |video| <= 0x100_0000
    ensures |HeaderItems()| <= 8 && Short(HeaderItems(), 8)
    ensures |InfoItems()| <= 8 && Short(InfoItems(), 8)
    ensures |VideoItems(format)| <= 8 && Short(VideoItems(format), 8)
    ensures |TrackItems(format, private, video)| <= 8 && Short(TrackItems(format, private, video), 0x100_0000)
  {
    hide UintItem, Ascii, CodecName;
  }

  function Bound(n: nat, limit: nat): nat { if n == 0 then 0 else 12 + limit + Bound(n - 1, limit) }

  lemma {:induction false} BoundGrows(m: nat, n: nat, limit: nat)
    requires m <= n
    ensures Bound(m, limit) <= Bound(n, limit)
  {
    if m < n {
      BoundGrows(m, n - 1, limit);
    }
  }

  lemma BoundOf8(n: nat, limit: nat)
    requires n <= 8
    ensures Bound(n, limit) <= 96 + 8 * limit
  {
    BoundGrows(n, 8, limit);
    assert Bound(1, limit) == 12 + limit;
    assert Bound(2, limit) == 24 + 2 * limit;
    assert Bound(3, limit) == 36 + 3 * limit;
    assert Bound(4, limit) == 48 + 4 * limit;
    assert Bound(5, limit) == 60 + 5 * limit;
    assert Bound(6, limit) == 72 + 6 * limit;
    assert Bound(7, limit) == 84 + 7 * limit;
  }

  lemma {:induction false} WrittenBound(items: seq<Item>, limit: nat)
    requires limit <= MAX_DATA && Short(items, limit)
    ensures Writable(items) && |Written(items)| <= Bound(|items|, limit)
  {
    hide Element;
    if items != [] {
      WrittenBound(items[1..], limit);
      ElementLength(items[0].id, items[0].data);
    }
  }

  lemma WrittenLength(items: seq<Item>, limit: nat)
    requires |items| <= 8 && limit <= MAX_DATA && Short(items, limit)
    ensures Writable(items) && |Written(items)| <= 96 + 8 * limit
  {
    hide Written, Short;
    WrittenBound(items, limit);
    BoundOf8(|items|, limit);
  }

  /** The elements of a small list, one after the other. */
  function Small(items: seq<Item>): (s: seq<Byte>)
    requires |items| <= 8 && Short(items, 0x1000_0000)
    ensures |s| <= 0x1_0000_0000
  {
    WrittenLength(items, 0x1000_0000);
    Written(items)
  }

  function HeaderData(): (s: seq<Byte>)
    ensures |s| <= 0x1_0000_0000
  {
    ShortLists(VideoFormat(0, 0, H264), [], []);
    Small(HeaderItems())
  }

  function InfoData(): (s: seq<Byte>)
    ensures |s| <= 0x1_0000_0000
  {
    ShortLists(VideoFormat(0, 0, H264), [], []);
    Small(InfoItems())
  }

  function VideoData(format: VideoFormat): (s: seq<Byte>)
    ensures |s| <= 0x100_0000
  {
    ShortLists(format, [], []);
    WrittenLength(VideoItems(format), 8);
    Small(VideoItems(format))
  }

  function TrackData(format: VideoFormat, private: seq<Byte>): (s: seq<Byte>)
    requires |private| <= 0x100_0000
    ensures |s| <= 0x1_0000_0000
  {
    ShortLists(format, private, VideoData(format));
    Small(TrackItems(format, private, VideoData(format)))
  }

  const SEGMENT_HEAD: seq<Byte> := [0x18, 0x53, 0x80, 0x67, 0x01, 0xff, 0xff, 0xff, 0xff, 0xff, 0xff, 0xff]

  /** The children of the segment before the first cluster. */
  function Preamble(format: VideoFormat, private: seq<Byte>): seq<Item>
    requires |private| <= 0x100_0000
  {
    [Item(INFO, InfoData()), Item(TRACKS, Element(0xae, TrackData(format, private)))]
  }

  lemma PreambleShort(format: VideoFormat, private: seq<Byte>)
    requires |private| <= 0x100_0000
    ensures |Preamble(format, private)| == 2 && Short(Preamble(format, private), 0x2_0000_0000)
    ensures Writable(Preamble(format, private))
  {
    hide InfoData, TrackData, Element;
    ElementLength(0xae, TrackData(format, private));
    WrittenLength(Preamble(format, private), 0x2_0000_0000);
  }

  /** What `Matroska::new` writes. */
  function FileHead(format: VideoFormat, private: seq<Byte>): seq<Byte>
    requires |private| <= 0x100_0000
  {
    PreambleShort(format, private);
    Element(EBML, HeaderData()) + (SEGMENT_HEAD + Written(Preamble(format, private)))
  }

  function Timestamp(frame: EncodedFrame, originUs: nat): nat {
    (if frame.timestampUs > originUs then frame.timestampUs - originUs else 0) / 1000
  }

  function Block(keyframe: bool, units: seq<Byte>): seq<Byte> { [0x81, 0, 0, if keyframe then 0x80 else 0] + units }

  function ClusterItems(timestamp: nat, block: seq<Byte>): (items: seq<Item>)
    ensures |items| == 2 && Short(items, if |block| < 8 then 8 else |block|)
  {
    [UintItem(TIMESTAMP, timestamp), Item(SIMPLE_BLOCK, block)]
  }

  function ClusterData(timestamp: nat, block: seq<Byte>): (s: seq<Byte>)
    requires |block| <= 4 * MAX_FRAME
    ensures |s| <= MAX_DATA
  {
    WrittenLength(ClusterItems(timestamp, block), 4 * MAX_FRAME);
    Written(ClusterItems(timestamp, block))
  }

  /** What `frame` writes: one cluster, or nothing when it fails. */
  function ClusterOf(frame: EncodedFrame, originUs: nat): (r: Result<Item>)
    requires |frame.data| <= MAX_FRAME
    ensures r.Ok? ==> r.value.id == CLUSTER && |r.value.data| <= MAX_DATA
  {
    var units := Units(frame.data);
    if units == [] then Err
    else
      var prefixed :- LengthPrefixed(units);
      PrefixedLength(frame.data, prefixed);
      Ok(Item(CLUSTER, ClusterData(Timestamp(frame, originUs), Block(frame.keyframe, prefixed))))
  }

  // ---- No element is too long ---------------------------------------------

  function Total(units: seq<Nal>): nat { if units == [] then 0 else |units[0]| + 3 + Total(units[1..]) }

  lemma {:induction false} TotalOfCuts(data: seq<Byte>, i: nat)
    requires i <= |data|
    ensures i <= Cut(data, Starts(data, i)) <= |data|
    ensures Total(Cuts(data, Starts(data, i))) <= |data| - Cut(data, Starts(data, i))
    decreases |data| - i
  {
    if i + 3 > |data| {
    } else if HasLong(data, i) || HasShort(data, i) {
      var first := Start(i, if HasLong(data, i) then 4 else 3);
      var from := i + first.prefix;
      TotalOfCuts(data, from);
      CutsCons(data, first, Starts(data, from));
      TotalOfUnit(data, from, Cut(data, Starts(data, from)), Cuts(data, Starts(data, from)));
    } else {
      TotalOfCuts(data, i + 1);
    }
  }

  lemma TotalOfUnit(data: seq<Byte>, from: nat, to: nat, rest: seq<Nal>)
    requires from <= to <= |data|
    ensures Total(UnitAt(data, from, to) + rest) <= 3 + (to - from) + Total(rest)
  {
    var unit := UnitAt(data, from, to);
    if unit == [] {
      assert unit + rest == rest;
    } else {
      assert (unit + rest)[1..] == rest;
    }
  }

  lemma {:induction false} LengthOfPrefixed(units: seq<Nal>)
    ensures LengthPrefixed(units).Ok? ==> |LengthPrefixed(units).value| <= 2 * Total(units)
  {
    if units != [] {
      LengthOfPrefixed(units[1..]);
    }
  }

  lemma PrefixedLength(data: seq<Byte>, prefixed: seq<Byte>)
    requires LengthPrefixed(Units(data)) == Ok(prefixed)
    ensures |prefixed| <= 2 * |data|
  {
    TotalOfCuts(data, 0);
    LengthOfPrefixed(Units(data));
  }

  // ---- The writer ---------------------------------------------------------

  /** What reaches a file that has room for `room` bytes more. */
  function Fitting(bytes: seq<Byte>, room: nat): seq<Byte> { if |bytes| <= room then bytes else bytes[..room] }

  lemma FittingTwo(a: seq<Byte>, b: seq<Byte>, room: nat)
    ensures |a| <= room ==> Fitting(a + b, room) == a + Fitting(b, room - |a|)
    ensures |a| > room ==> Fitting(a + b, room) == Fitting(a, room)
  {
  }

  class Writer {
    var output: seq<Byte>
    const originUs: nat
    /** How many bytes more can be written before writing fails. */
    var room: nat

    constructor (originUs: nat, room: nat)
      ensures this.output == [] && this.originUs == originUs && this.room == room
    {
      this.output, this.originUs, this.room := [], originUs, room;
    }

    /** `write_all` and `flush`: an error may come after any number of bytes. */
    method WriteAll(bytes: seq<Byte>) returns (ok: bool)
      modifies this
      ensures ok == (|bytes| <= old(room))
      ensures output == old(output) + Fitting(bytes, old(room))
      ensures room == if ok then old(room) - |bytes| else 0
    {
      ok := |bytes| <= room;
      output := output + Fitting(bytes, room);
      room := if ok then room - |bytes| else 0;
    }

    /** `Matroska::frame`: appends one complete cluster, or as much of it as could be written; nothing when the frame itself is refused. */
    method Frame(frame: EncodedFrame) returns (ok: bool)
      requires |frame.data| <= MAX_FRAME
      modifies this
      ensures match ClusterOf(frame, originUs)
              case Err => !ok && output == old(output) && room == old(room)
              case Ok(cluster) =>
                var bytes := Element(CLUSTER, cluster.data);
                && ok == (|bytes| <= old(room))
                && output == old(output) + Fitting(bytes, old(room))
                && room == if ok then old(room) - |bytes| else 0
    {
      hide Units, LengthPrefixed, Element, Written;
      var block: seq<Byte> := [0x81, 0, 0, if frame.keyframe then 0x80 else 0];
      var units := AnnexBUnits(frame.data);
      if units == [] {
        return false;
      }
      var prefixed := PrefixUnits(units);
      if prefixed.Err? {
        return false;
      }
      PrefixedLength(frame.data, prefixed.value);
      block := block + prefixed.value;
      var elapsed := if frame.timestampUs > originUs then frame.timestampUs - originUs else 0;
      var cluster := ClusterData(elapsed / 1000, block);
      ok := WriteAll(Element(CLUSTER, cluster));
    }
  }

  /** The loop that puts each unit after its length. */
  method PrefixUnits(units: seq<Nal>) returns (r: Result<seq<Byte>>)
    ensures r == LengthPrefixed(units)
  {
    var block: seq<Byte> := [];
    AfterNothing(LengthPrefixed(units));
    for i := 0 to |units|
      invariant LengthPrefixed(units) == After(block, LengthPrefixed(units[i..]))
    {
      var unit := units[i];
      assert units[i..][0] == unit && units[i..][1..] == units[i + 1..];
      if |unit| >= 0x1_0000_0000 {
        return Err;
      }
      AfterTwo(block, ToBytes(|unit|, 4), unit, LengthPrefixed(units[i + 1..]));
      block := block + ToBytes(|unit|, 4);
      block := block + unit;
    }
    assert block + [] == block;
    return Ok(block);
  }

  function After(before: seq<Byte>, r: Result<seq<Byte>>): Result<seq<Byte>> {
    if r.Ok? then Ok(before + r.value) else Err
  }

  lemma AfterNothing(r: Result<seq<Byte>>)
    ensures After([], r) == r
  {
    if r.Ok? {
      assert [] + r.value == r.value;
    }
  }

  lemma AfterTwo(before: seq<Byte>, length: seq<Byte>, unit: seq<Byte>, r: Result<seq<Byte>>)
    ensures After(before, if r.Ok? then Ok(length + (unit + r.value)) else Err) == After((before + length) + unit, r)
  {
    if r.Ok? {
      assert before + (length + (unit + r.value)) == (before + length) + unit + r.value;
    }
  }

  /** `Matroska::new`, into a file with `room` for so many bytes. */
  method Open(format: VideoFormat, first: EncodedFrame, room: nat) returns (writer: Writer, ok: bool)
    ensures fresh(writer) && writer.originUs == first.timestampUs
    ensures match CodecPrivateOf(format.codec, first.data)
            case Err => !ok && writer.output == []
            case Ok(private) =>
              && |private| <= 0x100_0000
              && var head := FileHead(format, private);
                 && ok == (|head| <= room)
                 && writer.output == Fitting(head, room)
                 && writer.room == if ok then room - |head| else 0
  {
    hide CodecPrivateOf, Element, Written, HeaderData, Preamble, Fitting;
    writer := new Writer(first.timestampUs, room);
    PrivateLength(format.codec, first.data);
    var private := CodecPrivate(format.codec, first.data);
    if private.Err? {
      return writer, false;
    }
    var header := Element(EBML, HeaderData());
    PreambleShort(format, private.value);
    var preamble := Written(Preamble(format, private.value));
    FittingTwo(header, SEGMENT_HEAD + preamble, room);
    assert forall s: seq<Byte> :: [] + s == s;
    ok := writer.WriteAll(header);
    if !ok {
      return;
    }
    FittingTwo(SEGMENT_HEAD, preamble, writer.room);
    FittingAll(header, room);
    ok := writer.WriteAll(SEGMENT_HEAD);
    if !ok {
      return;
    }
    FittingAll(SEGMENT_HEAD, room - |header|);
    Assoc(header, SEGMENT_HEAD, Fitting(preamble, writer.room));
    ok := writer.WriteAll(preamble);
  }

  lemma FittingAll(bytes: seq<Byte>, room: nat)
    ensures |bytes| <= room ==> Fitting(bytes, room) == bytes
  {
  }
}
