/** Playing a recording back: a Matroska reader, and what it recovers from what `Matroska` wrote. */
module Playback {
  import opened Bytes
  import opened AnnexB
  import opened Ebml
  import opened ParameterSets
  import opened Matroska

  // Element IDs and fixed values of RFC 8794 and RFC 9559.
  const ID_EBML: nat := 0x1a45dfa3
  const ID_READ_VERSION: nat := 0x42f7
  const ID_MAX_ID: nat := 0x42f2
  const ID_MAX_SIZE: nat := 0x42f3
  const ID_DOC_TYPE: nat := 0x4282
  const ID_DOC_READ_VERSION: nat := 0x4285
  const ID_SEGMENT: nat := 0x18538067
  const ID_INFO: nat := 0x1549a966
  const ID_SCALE: nat := 0x2ad7b1
  const ID_TRACKS: nat := 0x1654ae6b
  const ID_ENTRY: nat := 0xae
  const ID_NUMBER: nat := 0xd7
  const ID_TYPE: nat := 0x83
  const ID_CODEC: nat := 0x86
  const ID_PRIVATE: nat := 0x63a2
  const ID_VIDEO: nat := 0xe0
  const ID_WIDTH: nat := 0xb0
  const ID_HEIGHT: nat := 0xba
  const ID_CLUSTER: nat := 0x1f43b675
  const ID_TIMESTAMP: nat := 0xe7
  const ID_SIMPLE_BLOCK: nat := 0xa3

  /** "matroska" in ASCII. */
  const DOC_TYPE: seq<Byte> := [0x6d, 0x61, 0x74, 0x72, 0x6f, 0x73, 0x6b, 0x61]

  /** "V_MPEG4/ISO/AVC" and "V_MPEGH/ISO/HEVC" in ASCII. */
  function CodecId(codec: Codec): seq<Byte> {
    match codec
    case H264 => [0x56, 0x5f, 0x4d, 0x50, 0x45, 0x47, 0x34, 0x2f, 0x49, 0x53, 0x4f, 0x2f, 0x41, 0x56, 0x43]
    case H265 => [0x56, 0x5f, 0x4d, 0x50, 0x45, 0x47, 0x48, 0x2f, 0x49, 0x53, 0x4f, 0x2f, 0x48, 0x45, 0x56, 0x43]
  }

  /** What a player sees of a frame: when, in nanoseconds, whether it can start there, and its units. */
  datatype Picture = Picture(timeNs: int, keyframe: bool, units: seq<Nal>)

  /** The data of the first element with an ID. */
  function Find(items: seq<Item>, id: nat): Option<seq<Byte>> {
    if items == [] then None else if items[0].id == id then Some(items[0].data) else Find(items[1..], id)
  }

  function Number(items: seq<Item>, id: nat): Option<nat> {
    match Find(items, id)
    case None => None
    case Some(data) => Some(FromBytes(data))
  }

  /** Units after 32-bit lengths. */
  function ReadUnits(s: seq<Byte>): Option<seq<Nal>>
    decreases |s|
  {
    if s == [] then Some([])
    else if |s| < 4 || 4 + FromBytes(s[..4]) > |s| then None
    else
      var end := 4 + FromBytes(s[..4]);
      match ReadUnits(s[end..])
      case None => None
      case Some(units) => Some([s[4..end]] + units)
  }

  /** Two bytes as a signed number. */
  function Signed16(s: seq<Byte>): int
    requires |s| == 2
  {
    var n := FromBytes(s);
    if n < 0x8000 then n else n - 0x1_0000
  }

  /** A simple block of one track without lacing: the track's number, the time after the cluster's, the flags, the frame. */
  function ReadBlock(block: seq<Byte>, clusterTime: nat, scale: nat, track: nat): Option<Picture> {
    if block == [] then None
    else
      var w := VintWidth(block[0]);
      if w == 0 || |block| < w + 3 || FromBytes(block[..w]) - SizeLimit(w) != track || block[w + 2] / 2 % 4 != 0 then None
      else
        match ReadUnits(block[w + 3..])
        case None => None
        case Some(units) =>
          Some(Picture((clusterTime + Signed16(block[w..w + 2])) * scale, block[w + 2] >= 128, units))
  }

  /** A cluster of one timestamp and one simple block. */
  function ReadCluster(data: seq<Byte>, scale: nat, track: nat): Option<Picture> {
    var items := ReadItems(data);
    if |items| != 2 || items[0].id != ID_TIMESTAMP || items[1].id != ID_SIMPLE_BLOCK then None
    else ReadBlock(items[1].data, FromBytes(items[0].data), scale, track)
  }

  /** The pictures of a track in the clusters among a segment's children. */
  function Pictures(items: seq<Item>, scale: nat, track: nat): seq<Picture> {
    if items == [] then []
    else
      var rest := Pictures(items[1..], scale, track);
      if items[0].id != ID_CLUSTER then rest
      else
        match ReadCluster(items[0].data, scale, track)
        case None => rest
        case Some(picture) => [picture] + rest
  }

  /** A header that a reader of Matroska accepts. */
  predicate Readable(header: seq<Item>) {
    && Find(header, ID_DOC_TYPE) == Some(DOC_TYPE)
    && Number(header, ID_READ_VERSION) == Some(1)
    && Number(header, ID_MAX_ID) == Some(4) && Number(header, ID_MAX_SIZE) == Some(8)
    && Number(header, ID_DOC_READ_VERSION).Some? && Number(header, ID_DOC_READ_VERSION).value <= 4
  }

  /** The children of the segment of unknown size after the EBML header. */
  function Children(file: seq<Byte>): Option<seq<Item>> {
    match ReadElement(file)
    case None => None
    case Some((header, rest)) =>
      if header.id != ID_EBML || !Readable(ReadItems(header.data)) then None
      else
        match ReadHead(rest)
        case None => None
        case Some(head) =>
          if head.id != ID_SEGMENT || !head.size.Unknown? || head.length > |rest| then None
          else Some(ReadItems(rest[head.length..]))
  }

  /** The length of a timestamp's unit in nanoseconds; a millisecond unless the Info element says otherwise. */
  function Scale(items: seq<Item>): Option<nat> {
    match Find(items, ID_INFO)
    case None => None
    case Some(info) =>
      match Number(ReadItems(info), ID_SCALE)
      case None => Some(1_000_000)
      case Some(scale) => Some(scale)
  }

  datatype Track = Track(number: nat, codec: seq<Byte>, private: seq<Byte>, width: nat, height: nat)

  /** A video track, from its entry's children. */
  function TrackFrom(items: seq<Item>): Option<Track> {
    var number, kind := Number(items, ID_NUMBER), Number(items, ID_TYPE);
    var codec, private, video := Find(items, ID_CODEC), Find(items, ID_PRIVATE), Find(items, ID_VIDEO);
    if number.None? || kind != Some(1) || codec.None? || private.None? || video.None? then None
    else
      var width, height := Number(ReadItems(video.value), ID_WIDTH), Number(ReadItems(video.value), ID_HEIGHT);
      if width.None? || height.None? then None
      else Some(Track(number.value, codec.value, private.value, width.value, height.value))
  }

  function TrackOf(items: seq<Item>): Option<Track> {
    match Find(items, ID_TRACKS)
    case None => None
    case Some(tracks) =>
      match Find(ReadItems(tracks), ID_ENTRY)
      case None => None
      case Some(entry) => TrackFrom(ReadItems(entry))
  }

  /** The pictures of the file's track, up to where it ends or is cut off. */
  function Play(file: seq<Byte>): Option<seq<Picture>> {
    match Children(file)
    case None => None
    case Some(items) =>
      if Scale(items).None? || TrackOf(items).None? then None
      else Some(Pictures(items, Scale(items).value, TrackOf(items).value.number))
  }

  // ---- One frame ----------------------------------------------------------

  /** How long after the origin a frame was captured; one captured earlier counts as captured then. */
  function ElapsedUs(frame: EncodedFrame, originUs: nat): nat {
    if frame.timestampUs <= originUs then 0 else frame.timestampUs - originUs
  }

  function PictureOf(frame: EncodedFrame, originUs: nat): Picture {
    Picture(ElapsedUs(frame, originUs) / 1000 * 1_000_000, frame.keyframe, Units(frame.data))
  }

  /** A frame is shown at the last whole millisecond not after its capture, counted from the first frame's. */
  lemma ShownWithinMillisecond(frame: EncodedFrame, originUs: nat)
    ensures var shown := PictureOf(frame, originUs).timeNs;
            && shown % 1_000_000 == 0
            && (frame.timestampUs <= originUs ==> shown == 0)
            && (frame.timestampUs > originUs ==> shown <= (frame.timestampUs - originUs) * 1000 < shown + 1_000_000)
  {
    hide Units;
  }

  lemma {:induction false} UnitsRead(units: seq<Nal>)
    requires LengthPrefixed(units).Ok?
    ensures ReadUnits(LengthPrefixed(units).value) == Some(units)
  {
    hide ToBytes, FromBytes;
    if units != [] {
      var unit, rest := units[0], LengthPrefixed(units[1..]).value;
      UnitsRead(units[1..]);
      Power256At4();
      FromToBytes(|unit|, 4);
      var s := ToBytes(|unit|, 4) + (unit + rest);
      assert s[..4] == ToBytes(|unit|, 4) && s[4..4 + |unit|] == unit && s[4 + |unit|..] == rest;
      assert [unit] + units[1..] == units;
    }
  }

  lemma UintRead(value: nat)
    requires value < 0x1_0000_0000_0000_0000
    ensures FromBytes(Shortest(ToBytes(value, 8))) == value
  {
    hide ToBytes, FromBytes, Shortest;
    SizeLimitIsMarker(8);
    Power256At8();
    FromToBytes(value, 8);
    FromShortest(ToBytes(value, 8));
  }

  lemma Power256At8()
    ensures Power256(8) == 0x1_0000_0000_0000_0000
  {
    assert Power256(2) == 0x1_0000;
    assert Power256(4) == 0x1_0000_0000;
    assert Power256(6) == 0x1_0000_0000_0000;
  }

  /** A frame's cluster gives back its time, its keyframe flag and its units. */
  lemma ClusterRead(frame: EncodedFrame, originUs: nat)
    requires |frame.data| <= MAX_FRAME && frame.timestampUs < 0x1_0000_0000_0000_0000
    requires ClusterOf(frame, originUs).Ok?
    ensures ReadCluster(ClusterOf(frame, originUs).value.data, 1_000_000, 1) == Some(PictureOf(frame, originUs))
  {
    hide Units, LengthPrefixed, ReadItems, ReadUnits, Written, FromBytes, UintItem, ReadBlock, Block;
    var units := Units(frame.data);
    var prefixed := LengthPrefixed(units).value;
    BlockLength(frame.keyframe, prefixed);
    PrefixedLength(frame.data, prefixed);
    var time, block := Timestamp(frame, originUs), Block(frame.keyframe, prefixed);
    var items := ClusterItems(time, block);
    WrittenLength(items, 4 * MAX_FRAME);
    NothingRead();
    ItemsRead(items, []);
    assert Written(items) + [] == Written(items);
    UintRead(time);
    UintItemData(TIMESTAMP, time);
    UnitsRead(units);
    BlockRead(frame.keyframe, units, time);
  }

  lemma BlockLength(keyframe: bool, units: seq<Byte>)
    ensures |Block(keyframe, units)| == |units| + 4
  {
  }

  lemma BlockRead(keyframe: bool, units: seq<Nal>, time: nat)
    requires LengthPrefixed(units).Ok? && ReadUnits(LengthPrefixed(units).value) == Some(units)
    ensures ReadBlock(Block(keyframe, LengthPrefixed(units).value), time, 1_000_000, 1)
         == Some(Picture(time * 1_000_000, keyframe, units))
  {
    hide ReadUnits, LengthPrefixed;
    var prefixed := LengthPrefixed(units).value;
    var block := Block(keyframe, prefixed);
    assert block[4..] == prefixed && block[..1] == [0x81] && block[1..3] == [0, 0];
    assert [0x81][..0] == [] && [0, 0][..1] == [0] && [0][..0] == [];
    assert FromBytes([0x81]) == 0x81;
    assert FromBytes([0]) == 0;
  }

  lemma UintItemData(id: nat, value: nat)
    ensures UintItem(id, value).data == Shortest(ToBytes(value, 8))
  {
  }

  // ---- A whole run --------------------------------------------------------

  /** The frames a writer accepts. */
  ghost predicate Recordable(frames: seq<EncodedFrame>, originUs: nat) {
    forall i :: 0 <= i < |frames| ==>
      |frames[i].data| <= MAX_FRAME && frames[i].timestampUs < 0x1_0000_0000_0000_0000
      && ClusterOf(frames[i], originUs).Ok?
  }

  function Clusters(frames: seq<EncodedFrame>, originUs: nat): (items: seq<Item>)
    requires Recordable(frames, originUs)
    ensures |items| == |frames|
    ensures forall i :: 0 <= i < |items| ==> items[i] == ClusterOf(frames[i], originUs).value
  {
    seq(|frames|, i requires 0 <= i < |frames| => ClusterOf(frames[i], originUs).value)
  }

  lemma ClustersWritable(frames: seq<EncodedFrame>, originUs: nat)
    requires Recordable(frames, originUs)
    ensures Writable(Clusters(frames, originUs))
  {
    hide ClusterOf;
    var items := Clusters(frames, originUs);
    forall item | item in items ensures ValidId(item.id) && |item.data| <= MAX_DATA {
      var i :| 0 <= i < |items| && items[i] == item;
      assert ClusterOf(frames[i], originUs).value == item;
    }
  }

  function PicturesOf(frames: seq<EncodedFrame>, originUs: nat): seq<Picture> {
    seq(|frames|, i requires 0 <= i < |frames| => PictureOf(frames[i], originUs))
  }

  lemma {:induction false} ClustersPlayed(frames: seq<EncodedFrame>, originUs: nat)
    requires Recordable(frames, originUs)
    ensures Pictures(Clusters(frames, originUs), 1_000_000, 1) == PicturesOf(frames, originUs)
  {
    hide ClusterOf, ReadCluster, PictureOf;
    if frames != [] {
      ClusterRead(frames[0], originUs);
      ClustersPlayed(frames[1..], originUs);
      assert Clusters(frames, originUs)[1..] == Clusters(frames[1..], originUs);
      assert PicturesOf(frames, originUs) == [PictureOf(frames[0], originUs)] + PicturesOf(frames[1..], originUs);
    }
  }

  /** The file after `Matroska::new` and a `frame` call for each of `frames`. */
  function FileOf(format: VideoFormat, private: seq<Byte>, frames: seq<EncodedFrame>, originUs: nat): seq<Byte>
    requires |private| <= 0x100_0000 && Recordable(frames, originUs)
  {
    ClustersWritable(frames, originUs);
    FileHead(format, private) + Written(Clusters(frames, originUs))
  }

  lemma SegmentRead(rest: seq<Byte>)
    ensures ReadHead(SEGMENT_HEAD + rest) == Some(Head(ID_SEGMENT, Unknown, 12))
  {
    var id: seq<Byte> := [0x18, 0x53, 0x80, 0x67];
    var size: seq<Byte> := [0x01, 0xff, 0xff, 0xff, 0xff, 0xff, 0xff, 0xff];
    var s := SEGMENT_HEAD + rest;
    assert SEGMENT_HEAD == id + size;
    assert s == id + (size + rest);
    assert s[..4] == id && s[4..] == size + rest && (size + rest)[..8] == size;
    FourByteValue(id);
    AllOnes();
  }

  lemma FourByteValue(s: seq<Byte>)
    requires |s| == 4
    ensures FromBytes(s) == s[0] as nat * 0x100_0000 + s[1] as nat * 0x1_0000 + s[2] as nat * 0x100 + s[3] as nat
  {
    var s3, s2, s1 := s[..3], s[..2], s[..1];
    assert s3[..2] == s2 && s2[..1] == s1 && s1[..0] == [];
    assert FromBytes(s1) == s[0] as nat;
    assert FromBytes(s2) == FromBytes(s1) * 256 + s[1] as nat;
    assert FromBytes(s3) == FromBytes(s2) * 256 + s[2] as nat;
  }

  lemma AllOnes()
    ensures FromBytes([0x01, 0xff, 0xff, 0xff, 0xff, 0xff, 0xff, 0xff]) == 2 * SizeLimit(8) - 1
  {
    var s: seq<Byte> := [0x01, 0xff, 0xff, 0xff, 0xff, 0xff, 0xff, 0xff];
    var high, low := s[..4], s[4..];
    FourByteValue(high);
    FourByteValue(low);
    FromConcat4(high, low);
    assert s == high + low;
  }

  lemma FromConcat4(high: seq<Byte>, low: seq<Byte>)
    requires |low| == 4
    ensures FromBytes(high + low) == FromBytes(high) * 0x1_0000_0000 + FromBytes(low)
  {
    FourByteValue(low);
    var s := high + low;
    var n := |high|;
    assert s[..n + 3] == high + low[..3] && s[..n + 3][..n + 2] == high + low[..2];
    assert (high + low[..2])[..n + 1] == high + low[..1] && (high + low[..1])[..n] == high;
    assert FromBytes(high + low[..1]) == FromBytes(high) * 256 + low[0] as nat;
    assert FromBytes(high + low[..2]) == FromBytes(high + low[..1]) * 256 + low[1] as nat;
    assert FromBytes(high + low[..3]) == FromBytes(high + low[..2]) * 256 + low[2] as nat;
  }

  /** What the reader finds in the segment: the two leading elements, then every complete cluster. */
  lemma ChildrenRead(
    format: VideoFormat, private: seq<Byte>, frames: seq<EncodedFrame>, originUs: nat, tail: seq<Byte>)
    requires |private| <= 0x100_0000 && Recordable(frames, originUs) && ReadElement(tail) == None
    ensures Children(FileOf(format, private, frames, originUs) + tail)
         == Some(Preamble(format, private) + Clusters(frames, originUs))
  {
    hide ReadElement, ReadHead, ReadItems, Element, Written, Preamble, ClusterOf, HeaderData, SEGMENT_HEAD, Readable;
    HeaderReadable();
    PreambleShort(format, private);
    ClustersWritable(frames, originUs);
    var head, clusters := Preamble(format, private), Clusters(frames, originUs);
    var items := head + clusters;
    WrittenConcat(head, clusters);
    var segment := Written(items) + tail;
    var rest := SEGMENT_HEAD + segment;
    SplitFile(Element(EBML, HeaderData()), SEGMENT_HEAD, Written(head), Written(clusters), tail);
    assert FileOf(format, private, frames, originUs) + tail == Element(EBML, HeaderData()) + rest;
    ElementRead(EBML, HeaderData(), rest);
    SegmentRead(segment);
    SegmentHeadLength();
    assert rest[12..] == segment;
    ItemsRead(items, tail);
  }

  lemma SegmentHeadLength()
    ensures |SEGMENT_HEAD| == 12
  {
  }

  lemma SplitFile(a: seq<Byte>, b: seq<Byte>, c: seq<Byte>, d: seq<Byte>, e: seq<Byte>)
    ensures ((a + (b + c)) + d) + e == a + (b + ((c + d) + e))
  {
  }

  lemma WrittenCons(item: Item, rest: seq<Item>)
    requires ValidId(item.id) && |item.data| <= MAX_DATA && Writable(rest)
    ensures Writable([item] + rest) && Written([item] + rest) == Element(item.id, item.data) + Written(rest)
  {
    hide Element;
    assert ([item] + rest)[1..] == rest;
  }

  lemma {:induction false} WrittenConcat(first: seq<Item>, second: seq<Item>)
    requires Writable(first) && Writable(second)
    ensures Writable(first + second) && Written(first + second) == Written(first) + Written(second)
  {
    hide Element, Written;
    if first == [] {
      NothingWritten();
      assert first + second == second;
    } else {
      var item, rest := first[0], first[1..];
      assert item in first && forall other :: other in rest ==> other in first;
      WrittenConcat(rest, second);
      WrittenCons(item, rest);
      WrittenCons(item, rest + second);
      assert [item] + rest == first && [item] + (rest + second) == first + second;
      Assoc(Element(item.id, item.data), Written(rest), Written(second));
    }
  }

  lemma NothingWritten()
    ensures Written([]) == []
  {
  }

  lemma {:induction false} FindAt(items: seq<Item>, k: nat, id: nat)
    requires k < |items| && items[k].id == id && forall j :: 0 <= j < k ==> items[j].id != id
    ensures Find(items, id) == Some(items[k].data)
  {
    if k > 0 {
      FindAt(items[1..], k - 1, id);
    }
  }

  lemma AsciiNames()
    ensures Ascii("matroska") == DOC_TYPE
    ensures forall codec :: Ascii(CodecName(codec)) == CodecId(codec)
  {
    AsciiName(H264);
    AsciiName(H265);
    var s, t := Ascii("matroska"), "matroska";
    assert t[0] == 'm' && t[1] == 'a' && t[2] == 't' && t[3] == 'r' && t[4] == 'o' && t[5] == 's' && t[6] == 'k' && t[7] == 'a';
    forall codec ensures Ascii(CodecName(codec)) == CodecId(codec) {
      AsciiName(codec);
    }
  }

  lemma AsciiName(codec: Codec)
    ensures Ascii(CodecName(codec)) == CodecId(codec)
  {
    match codec
    case H264 =>
      var t := "V_MPEG4/ISO/AVC";
      assert t[0] == 'V' && t[1] == '_' && t[2] == 'M' && t[3] == 'P' && t[4] == 'E' && t[5] == 'G' && t[6] == '4';
      assert t[7] == '/' && t[8] == 'I' && t[9] == 'S' && t[10] == 'O' && t[11] == '/' && t[12] == 'A' && t[13] == 'V';
      assert t[14] == 'C';
    case H265 =>
      var t := "V_MPEGH/ISO/HEVC";
      assert t[0] == 'V' && t[1] == '_' && t[2] == 'M' && t[3] == 'P' && t[4] == 'E' && t[5] == 'G' && t[6] == 'H';
      assert t[7] == '/' && t[8] == 'I' && t[9] == 'S' && t[10] == 'O' && t[11] == '/' && t[12] == 'H' && t[13] == 'E';
      assert t[14] == 'V' && t[15] == 'C';
  }

  lemma UintItemRead(items: seq<Item>, k: nat, id: nat, value: nat)
    requires value < 0x1_0000_0000_0000_0000 && k < |items| && items[k] == UintItem(id, value)
    requires forall j :: 0 <= j < k ==> items[j].id != id
    ensures Number(items, id) == Some(value)
  {
    hide Find, FromBytes, UintItem;
    FindAt(items, k, id);
    UintItemData(id, value);
    UintRead(value);
  }

  lemma HeaderReadable()
    ensures Readable(ReadItems(HeaderData()))
  {
    hide ReadItems, Small, Find, Number, UintItem, Ascii, DOC_TYPE;
    ShortLists(VideoFormat(0, 0, H264), [], []);
    SmallRead(HeaderItems());
    AsciiNames();
    var items := HeaderItems();
    UintItemRead(items, 1, ID_READ_VERSION, 1);
    UintItemRead(items, 2, ID_MAX_ID, 4);
    UintItemRead(items, 3, ID_MAX_SIZE, 8);
    FindAt(items, 4, ID_DOC_TYPE);
    UintItemRead(items, 6, ID_DOC_READ_VERSION, 2);
  }

  /** The two elements before the clusters say how long a timestamp's unit is, and what the track holds. */
  lemma PreambleRead(format: VideoFormat, private: seq<Byte>, clusters: seq<Item>)
    requires |private| <= 0x100_0000
    ensures var items := Preamble(format, private) + clusters;
            && Scale(items) == Some(1_000_000)
            && TrackOf(items) == Some(Track(1, CodecId(format.codec), private, format.width, format.height))
  {
    hide Find, Number, InfoData, TrackData, Element, ReadItems, TrackFrom;
    var items := Preamble(format, private) + clusters;
    FindAt(items, 0, ID_INFO);
    FindAt(items, 1, ID_TRACKS);
    ScaleRead();
    EntryRead(format, private);
    TrackDataRead(format, private);
    TrackItemsRead(format, private);
  }

  lemma ScaleRead()
    ensures Number(ReadItems(InfoData()), ID_SCALE) == Some(1_000_000)
  {
    hide ReadItems, Small, Number, UintItem, Ascii;
    ShortLists(VideoFormat(0, 0, H264), [], []);
    SmallRead(InfoItems());
    UintItemRead(InfoItems(), 0, ID_SCALE, 1_000_000);
  }

  lemma EntryRead(format: VideoFormat, private: seq<Byte>)
    requires |private| <= 0x100_0000
    ensures Find(ReadItems(Element(0xae, TrackData(format, private))), ID_ENTRY) == Some(TrackData(format, private))
  {
    hide TrackData, Element, ReadItems, Find;
    var entry := Item(0xae, TrackData(format, private));
    NothingRead();
    ItemsRead([entry], []);
    WrittenOne(entry);
    assert Element(0xae, entry.data) + [] == Element(0xae, entry.data);
    FindAt([entry], 0, ID_ENTRY);
  }

  lemma TrackItemsRead(format: VideoFormat, private: seq<Byte>)
    requires |private| <= 0x100_0000
    ensures TrackFrom(TrackItems(format, private, VideoData(format)))
         == Some(Track(1, CodecId(format.codec), private, format.width, format.height))
  {
    hide Find, Number, UintItem, Ascii, VideoData, ReadItems, CodecId, CodecName;
    var items := TrackItems(format, private, VideoData(format));
    AsciiNames();
    UintItemRead(items, 0, ID_NUMBER, 1);
    UintItemRead(items, 2, ID_TYPE, 1);
    FindAt(items, 4, ID_CODEC);
    FindAt(items, 5, ID_PRIVATE);
    FindAt(items, 6, ID_VIDEO);
    VideoRead(format);
    UintItemRead(VideoItems(format), 0, ID_WIDTH, format.width);
    UintItemRead(VideoItems(format), 1, ID_HEIGHT, format.height);
  }

  lemma PreamblePlaysNothing(format: VideoFormat, private: seq<Byte>, clusters: seq<Item>)
    requires |private| <= 0x100_0000
    ensures Pictures(Preamble(format, private) + clusters, 1_000_000, 1) == Pictures(clusters, 1_000_000, 1)
  {
    hide InfoData, TrackData, Element, ReadCluster;
    var items := Preamble(format, private) + clusters;
    assert items[1..][1..] == clusters;
    assert items[0].id == INFO && items[1..][0].id == TRACKS;
  }

  // ---- The track ----------------------------------------------------------

  function ReadTrack(file: seq<Byte>): Option<Track> {
    match Children(file)
    case None => None
    case Some(items) => TrackOf(items)
  }

  lemma SmallRead(items: seq<Item>)
    requires |items| <= 8 && Short(items, 0x1000_0000)
    ensures ReadItems(Small(items)) == items
  {
    hide ReadItems, Written, Short;
    WrittenLength(items, 0x1000_0000);
    NothingRead();
    ItemsRead(items, []);
    assert Written(items) + [] == Written(items);
  }

  lemma VideoRead(format: VideoFormat)
    ensures ReadItems(VideoData(format)) == VideoItems(format)
  {
    hide ReadItems, Small;
    ShortLists(format, [], []);
    SmallRead(VideoItems(format));
  }

  lemma TrackDataRead(format: VideoFormat, private: seq<Byte>)
    requires |private| <= 0x100_0000
    ensures ReadItems(TrackData(format, private)) == TrackItems(format, private, VideoData(format))
  {
    hide ReadItems, Small, VideoData;
    ShortLists(format, private, VideoData(format));
    SmallRead(TrackItems(format, private, VideoData(format)));
  }

  /** The file says what it holds: the codec, the keyframe's configuration record and the size, as track 1. */
  lemma TrackRead(
    format: VideoFormat, private: seq<Byte>, frames: seq<EncodedFrame>, originUs: nat, tail: seq<Byte>)
    requires |private| <= 0x100_0000 && Recordable(frames, originUs) && ReadElement(tail) == None
    ensures ReadTrack(FileOf(format, private, frames, originUs) + tail)
         == Some(Track(1, CodecId(format.codec), private, format.width, format.height))
  {
    hide Children, ClusterOf, FileOf, Preamble, TrackOf, CodecId, ReadElement;
    ChildrenRead(format, private, frames, originUs, tail);
    PreambleRead(format, private, Clusters(frames, originUs));
  }

  /** A recording plays back frame by frame, with any bytes after it that are not a complete element. */
  lemma PlayedWithTail(
    format: VideoFormat, private: seq<Byte>, frames: seq<EncodedFrame>, originUs: nat, tail: seq<Byte>)
    requires |private| <= 0x100_0000 && Recordable(frames, originUs) && ReadElement(tail) == None
    ensures Play(FileOf(format, private, frames, originUs) + tail) == Some(PicturesOf(frames, originUs))
  {
    hide Children, Preamble, ClusterOf, FileOf, TrackOf, Scale, CodecId, ReadElement;
    ChildrenRead(format, private, frames, originUs, tail);
    PreambleRead(format, private, Clusters(frames, originUs));
    PreamblePlaysNothing(format, private, Clusters(frames, originUs));
    ClustersPlayed(frames, originUs);
  }

  /** Every run of `new` and `frame` calls plays back exactly. */
  lemma PlayedBack(format: VideoFormat, private: seq<Byte>, frames: seq<EncodedFrame>, originUs: nat)
    requires |private| <= 0x100_0000 && Recordable(frames, originUs)
    ensures Play(FileOf(format, private, frames, originUs)) == Some(PicturesOf(frames, originUs))
  {
    hide FileOf, Play;
    NothingRead();
    PlayedWithTail(format, private, frames, originUs, []);
    assert FileOf(format, private, frames, originUs) + [] == FileOf(format, private, frames, originUs);
  }

  /** A file cut off anywhere inside the cluster of frame `k` plays back exactly the `k` frames before it. */
  lemma PlayedUntilCut(
    format: VideoFormat, private: seq<Byte>, frames: seq<EncodedFrame>, originUs: nat, k: nat, cut: nat)
    requires |private| <= 0x100_0000 && Recordable(frames, originUs) && k < |frames|
    requires Recordable(frames[..k], originUs) && Recordable(frames[..k + 1], originUs)
    requires |FileOf(format, private, frames[..k], originUs)| <= cut < |FileOf(format, private, frames[..k + 1], originUs)|
    ensures cut <= |FileOf(format, private, frames, originUs)|
    ensures Play(FileOf(format, private, frames, originUs)[..cut]) == Some(PicturesOf(frames[..k], originUs))
  {
    hide Play, Element, ClusterOf, FileHead, PicturesOf;
    var before := FileOf(format, private, frames[..k], originUs);
    var cluster := ClusterOf(frames[k], originUs).value;
    var rest := FileSplit(format, private, frames, originUs, k);
    FileStep(format, private, frames, originUs, k);
    var whole := Element(CLUSTER, cluster.data);
    var tail := whole[..cut - |before|];
    assert FileOf(format, private, frames, originUs)[..cut] == before + tail;
    TruncatedElement(CLUSTER, cluster.data, cut - |before|);
    PlayedWithTail(format, private, frames[..k], originUs, tail);
  }

  lemma FileStep(format: VideoFormat, private: seq<Byte>, frames: seq<EncodedFrame>, originUs: nat, k: nat)
    requires |private| <= 0x100_0000 && k < |frames|
    requires Recordable(frames[..k], originUs) && Recordable(frames[..k + 1], originUs)
    ensures |frames[k].data| <= MAX_FRAME && ClusterOf(frames[k], originUs).Ok?
    ensures FileOf(format, private, frames[..k + 1], originUs)
         == FileOf(format, private, frames[..k], originUs) + Element(CLUSTER, ClusterOf(frames[k], originUs).value.data)
  {
    hide Element, ClusterOf, FileHead, Written;
    assert frames[k] == frames[..k + 1][k];
    var first := Clusters(frames[..k], originUs);
    var last := ClusterOf(frames[k], originUs).value;
    ClustersWritable(frames[..k], originUs);
    assert Clusters(frames[..k + 1], originUs) == first + [last];
    WrittenConcat(first, [last]);
    WrittenOne(last);
    Assoc(FileHead(format, private), Written(first), Element(last.id, last.data));
  }

  lemma WrittenOne(item: Item)
    requires |item.data| <= MAX_DATA
    ensures Written([item]) == Element(item.id, item.data)
  {
    assert [item][1..] == [];
    assert Written([item][1..]) == [];
  }

  /** A file starts with the file of its first frames. */
  lemma FileSplit(format: VideoFormat, private: seq<Byte>, frames: seq<EncodedFrame>, originUs: nat, k: nat)
    returns (rest: seq<Byte>)
    requires |private| <= 0x100_0000 && Recordable(frames, originUs) && k < |frames|
    requires Recordable(frames[..k + 1], originUs)
    ensures FileOf(format, private, frames, originUs) == FileOf(format, private, frames[..k + 1], originUs) + rest
  {
    hide Element, ClusterOf, FileHead, Written;
    var first, second := Clusters(frames[..k + 1], originUs), Clusters(frames[k + 1..], originUs);
    ClustersWritable(frames[..k + 1], originUs);
    ClustersWritable(frames[k + 1..], originUs);
    assert Clusters(frames, originUs) == first + second;
    WrittenConcat(first, second);
    rest := Written(second);
    Assoc(FileHead(format, private), Written(first), rest);
  }

  // ---- A file cut off before its first cluster ----------------------------

  /** A file without a picture in it. */
  ghost predicate PlaysNothing(file: seq<Byte>) { Play(file) == None || Play(file) == Some([]) }

  lemma NoPictures(items: seq<Item>, scale: nat, track: nat)
    requires forall item :: item in items ==> item.id != ID_CLUSTER
    ensures Pictures(items, scale, track) == []
  {
    hide ReadCluster;
    if items != [] {
      NoPictures(items[1..], scale, track);
    }
  }

  /** Elements in a row, cut anywhere: the complete ones are read, in order. */
  lemma {:induction false} CutItems(items: seq<Item>, cut: nat)
    requires Writable(items) && cut <= |Written(items)|
    ensures forall item :: item in ReadItems(Written(items)[..cut]) ==> item in items
    decreases |items|
  {
    hide Element, ReadElement, Written;
    if items == [] {
      NothingWritten();
      NothingRead();
    } else {
      var item, rest := items[0], items[1..];
      assert item in items && forall other :: other in rest ==> other in items;
      WrittenCons(item, rest);
      assert [item] + rest == items;
      var first := Element(item.id, item.data);
      if cut < |first| {
        TruncatedElement(item.id, item.data, cut);
        assert Written(items)[..cut] == first[..cut];
      } else {
        var tail := Written(rest)[..cut - |first|];
        assert Written(items)[..cut] == first + tail;
        ElementRead(item.id, item.data, tail);
        CutItems(rest, cut - |first|);
      }
    }
  }

  lemma CutSegmentHead(cut: nat)
    requires cut < 12
    ensures ReadHead(SEGMENT_HEAD[..cut]) == None
  {
    var s := SEGMENT_HEAD[..cut];
    assert cut > 0 ==> s[0] == 0x18;
    if cut >= 4 {
      assert cut > 4 ==> s[4..][0] == 0x01;
    }
  }

  /** A file cut off before its first cluster shows nothing, wherever it is cut. */
  lemma CutHeadPlaysNothing(format: VideoFormat, private: seq<Byte>, cut: nat)
    requires |private| <= 0x100_0000 && cut <= |FileHead(format, private)|
    ensures PlaysNothing(FileHead(format, private)[..cut])
  {
    hide Element, ReadElement, Written, HeaderData, ReadHead, ReadItems, Pictures, Preamble, Readable, Scale, TrackOf;
    PreambleShort(format, private);
    var header, preamble := Element(EBML, HeaderData()), Written(Preamble(format, private));
    var file := FileHead(format, private)[..cut];
    SegmentHeadLength();
    if cut < |header| {
      TruncatedElement(EBML, HeaderData(), cut);
      assert file == header[..cut];
    } else {
      var rest := (SEGMENT_HEAD + preamble)[..cut - |header|];
      assert file == header + rest;
      ElementRead(EBML, HeaderData(), rest);
      if |rest| < 12 {
        CutSegmentHead(|rest|);
        assert rest == SEGMENT_HEAD[..|rest|];
      } else {
        var some := preamble[..|rest| - 12];
        assert rest == SEGMENT_HEAD + some && rest[12..] == some;
        SegmentRead(some);
        CutItems(Preamble(format, private), |some|);
        PreambleIds(format, private);
        forall scale, track ensures Pictures(ReadItems(some), scale, track) == [] {
          NoPictures(ReadItems(some), scale, track);
        }
      }
    }
  }

  lemma PreambleIds(format: VideoFormat, private: seq<Byte>)
    requires |private| <= 0x100_0000
    ensures forall item :: item in Preamble(format, private) ==> item.id != ID_CLUSTER
  {
    hide InfoData, TrackData, Element;
  }
}
