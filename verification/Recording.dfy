/** `write_recording` of remote/src/recording.rs: splitting a session's frames into independently playable parts. */
module Recording {
  import opened Bytes
  import opened ParameterSets
  import opened Ebml
  import opened Matroska
  import opened Playback

  datatype Received = Received(frame: EncodedFrame, format: VideoFormat)

  /** One file: the frames of one stream, in the format its first frame came with. */
  datatype Part = Part(stream: nat, format: VideoFormat, frames: seq<EncodedFrame>)

  /** The parts after one more frame. */
  function Added(parts: seq<Part>, r: Received): seq<Part> {
    var last := |parts| - 1;
    if parts == [] || parts[last].stream != r.frame.streamId then
      if r.frame.keyframe then parts + [Part(r.frame.streamId, r.format, [r.frame])] else parts
    else parts[..last] + [parts[last].(frames := parts[last].frames + [r.frame])]
  }

  function PartsOf(received: seq<Received>): seq<Part> {
    if received == [] then []
    else Added(PartsOf(received[..|received| - 1]), received[|received| - 1])
  }

  // ---- What the parts are, for every sequence of frames -------------------

  ghost predicate ValidPart(part: Part) {
    && part.frames != [] && part.frames[0].keyframe
    && forall i :: 0 <= i < |part.frames| ==> part.frames[i].streamId == part.stream
  }

  ghost predicate ValidParts(parts: seq<Part>) {
    && (forall p :: 0 <= p < |parts| ==> ValidPart(parts[p]))
    && (forall p, q :: 0 <= p && q == p + 1 && q < |parts| ==> parts[p].stream != parts[q].stream)
  }

  /** Every part starts with a keyframe, has one stream, and differs in stream from the next. */
  lemma {:induction false} PartsValid(received: seq<Received>)
    ensures ValidParts(PartsOf(received))
  {
    if received != [] {
      var n := |received| - 1;
      PartsValid(received[..n]);
      AddedValid(PartsOf(received[..n]), received[n]);
    }
  }

  lemma AddedValid(parts: seq<Part>, r: Received)
    requires ValidParts(parts)
    ensures ValidParts(Added(parts, r))
  {
    var last := |parts| - 1;
    var added := Added(parts, r);
    if parts != [] && parts[last].stream == r.frame.streamId {
      assert ValidPart(parts[last]);
      assert ValidPart(added[last]);
      assert forall p :: 0 <= p <= last ==> added[p].stream == parts[p].stream;
    }
  }

  /** The stream of the latest keyframe. */
  function CurrentStream(received: seq<Received>): Option<nat> {
    if received == [] then None
    else
      var r := received[|received| - 1];
      if r.frame.keyframe then Some(r.frame.streamId) else CurrentStream(received[..|received| - 1])
  }

  /** A frame can be decoded in its part: a keyframe, or one of the latest keyframe's stream. */
  predicate Kept(before: seq<Received>, r: Received) {
    r.frame.keyframe || CurrentStream(before) == Some(r.frame.streamId)
  }

  /** The frames that are kept, in order. */
  function KeptOf(received: seq<Received>): seq<EncodedFrame> {
    if received == [] then []
    else
      var n := |received| - 1;
      KeptOf(received[..n]) + if Kept(received[..n], received[n]) then [received[n].frame] else []
  }

  function FramesOf(parts: seq<Part>): seq<EncodedFrame> {
    if parts == [] then [] else FramesOf(parts[..|parts| - 1]) + parts[|parts| - 1].frames
  }

  /** The stream of the part being written. */
  function PartStream(parts: seq<Part>): Option<nat> {
    if parts == [] then None else Some(parts[|parts| - 1].stream)
  }

  /** The parts hold exactly the frames received except those that are neither keyframes nor of the latest keyframe's stream. */
  lemma {:induction false} PartsHoldKept(received: seq<Received>)
    ensures FramesOf(PartsOf(received)) == KeptOf(received)
    ensures PartStream(PartsOf(received)) == CurrentStream(received)
  {
    if received != [] {
      var n := |received| - 1;
      PartsHoldKept(received[..n]);
      AddedFrames(PartsOf(received[..n]), received[n]);
    }
  }

  lemma AddedFrames(parts: seq<Part>, r: Received)
    ensures FramesOf(Added(parts, r))
         == FramesOf(parts) + if r.frame.keyframe || PartStream(parts) == Some(r.frame.streamId) then [r.frame] else []
    ensures PartStream(Added(parts, r)) == if r.frame.keyframe then Some(r.frame.streamId) else PartStream(parts)
  {
    var last, added := |parts| - 1, Added(parts, r);
    if parts != [] && parts[last].stream == r.frame.streamId {
      assert added[..last] == parts[..last];
      Assoc(FramesOf(parts[..last]), parts[last].frames, [r.frame]);
    } else if r.frame.keyframe {
      assert added[..|parts|] == parts;
    } else {
      assert FramesOf(parts) + [] == FramesOf(parts);
    }
  }

  /** The frames that begin a part: keyframes of another stream than the one before. */
  function Beginnings(received: seq<Received>): seq<Received> {
    if received == [] then []
    else
      var n := |received| - 1;
      var r := received[n];
      Beginnings(received[..n])
      + if r.frame.keyframe && CurrentStream(received[..n]) != Some(r.frame.streamId) then [r] else []
  }

  ghost predicate BeginsWith(part: Part, r: Received) {
    part.frames != [] && part.frames[0] == r.frame && part.stream == r.frame.streamId && part.format == r.format
  }

  /** There is one part for each of them, in the format that frame came in. */
  lemma {:induction false} PartsBegin(received: seq<Received>)
    ensures |PartsOf(received)| == |Beginnings(received)|
    ensures forall p :: 0 <= p < |PartsOf(received)| ==> BeginsWith(PartsOf(received)[p], Beginnings(received)[p])
  {
    if received != [] {
      var n := |received| - 1;
      PartsBegin(received[..n]);
      PartsHoldKept(received[..n]);
      var before, all := Beginnings(received[..n]), Beginnings(received);
      assert forall p :: 0 <= p < |before| ==> all[p] == before[p];
      AddedBegin(PartsOf(received[..n]), received[n], before);
    }
  }

  lemma AddedBegin(parts: seq<Part>, r: Received, before: seq<Received>)
    requires |parts| == |before| && forall p :: 0 <= p < |parts| ==> BeginsWith(parts[p], before[p])
    ensures var added := Added(parts, r);
            && (forall p :: 0 <= p < |parts| ==> p < |added| && BeginsWith(added[p], before[p]))
            && |added| == |parts| + (if r.frame.keyframe && PartStream(parts) != Some(r.frame.streamId) then 1 else 0)
            && (|added| > |parts| ==> BeginsWith(added[|parts|], r))
  {
    var added := Added(parts, r);
    forall p | 0 <= p < |parts| ensures p < |added| && BeginsWith(added[p], before[p]) {
      assert BeginsWith(parts[p], before[p]);
    }
  }

  // ---- The files ----------------------------------------------------------

  /** Every field of the frame fits its type. */
  ghost predicate InRange(r: Received) {
    |r.frame.data| <= MAX_FRAME && r.frame.timestampUs < 0x1_0000_0000_0000_0000
  }

  /** The writer accepts every frame of the part. */
  ghost predicate Writes(part: Part) {
    && part.frames != []
    && CodecPrivateOf(part.format.codec, part.frames[0].data).Ok?
    && Recordable(part.frames, part.frames[0].timestampUs)
  }

  ghost function PartFile(part: Part): seq<Byte>
    requires Writes(part)
  {
    PrivateLength(part.format.codec, part.frames[0].data);
    FileOf(part.format, CodecPrivateOf(part.format.codec, part.frames[0].data).value,
           part.frames, part.frames[0].timestampUs)
  }

  ghost predicate IsFileOf(file: seq<Byte>, part: Part) { Writes(part) && file == PartFile(part) }

  ghost predicate HoldParts(files: seq<seq<Byte>>, parts: seq<Part>) {
    |files| == |parts| && forall p :: 0 <= p < |parts| ==> IsFileOf(files[p], parts[p])
  }

  ghost predicate AllWrite(parts: seq<Part>) { forall p :: 0 <= p < |parts| ==> Writes(parts[p]) }

  /** Starting a part: its file is the head and the first frame's cluster. */
  lemma PartStarts(r: Received)
    requires InRange(r)
    ensures var part := Part(r.frame.streamId, r.format, [r.frame]);
            var private := CodecPrivateOf(r.format.codec, r.frame.data);
            var cluster := ClusterOf(r.frame, r.frame.timestampUs);
            && (Writes(part) <==> private.Ok? && cluster.Ok?)
            && (private.Ok? ==> |private.value| <= 0x100_0000)
            && (Writes(part) ==>
                  PartFile(part) == FileHead(r.format, private.value) + Element(CLUSTER, cluster.value.data))
  {
    hide CodecPrivateOf, ClusterOf, FileHead, Element;
    PrivateLength(r.format.codec, r.frame.data);
    var part := Part(r.frame.streamId, r.format, [r.frame]);
    if Writes(part) {
      var private := CodecPrivateOf(r.format.codec, r.frame.data).value;
      FileStep(r.format, private, part.frames, r.frame.timestampUs, 0);
      NoFrames(r.format, private, r.frame.timestampUs);
      assert part.frames[..1] == part.frames && part.frames[..0] == [];
    }
  }

  lemma NoFrames(format: VideoFormat, private: seq<Byte>, originUs: nat)
    requires |private| <= 0x100_0000
    ensures Recordable([], originUs) && FileOf(format, private, [], originUs) == FileHead(format, private)
  {
    hide FileHead;
    assert Clusters([], originUs) == [];
    NothingWritten();
    assert FileHead(format, private) + [] == FileHead(format, private);
  }

  /** Extending a part: its file grows by the frame's cluster. */
  lemma PartGrows(part: Part, r: Received)
    requires InRange(r) && Writes(part)
    ensures var grown := part.(frames := part.frames + [r.frame]);
            var cluster := ClusterOf(r.frame, part.frames[0].timestampUs);
            && (Writes(grown) <==> cluster.Ok?)
            && (Writes(grown) ==> PartFile(grown) == PartFile(part) + Element(CLUSTER, cluster.value.data))
  {
    hide CodecPrivateOf, ClusterOf, FileOf, Element;
    var grown := part.(frames := part.frames + [r.frame]);
    var n, originUs := |part.frames|, part.frames[0].timestampUs;
    PrivateLength(part.format.codec, part.frames[0].data);
    assert grown.frames[..n] == part.frames && grown.frames[..n + 1] == grown.frames && grown.frames[n] == r.frame;
    assert grown.frames[0] == part.frames[0];
    if ClusterOf(r.frame, originUs).Ok? {
      FileStep(part.format, CodecPrivateOf(part.format.codec, part.frames[0].data).value, grown.frames, originUs, n);
    }
  }

  /** Frames added later never make an unwritable part writable. */
  lemma AllWriteBefore(parts: seq<Part>, r: Received)
    requires AllWrite(Added(parts, r)) && forall p :: 0 <= p < |parts| ==> parts[p].frames != []
    ensures AllWrite(parts)
  {
    hide CodecPrivateOf, ClusterOf;
    var last, added := |parts| - 1, Added(parts, r);
    forall p | 0 <= p < |parts| ensures Writes(parts[p]) {
      assert Writes(added[p]);
      if p == last && added[p] != parts[p] {
        assert forall i :: 0 <= i < |parts[p].frames| ==> parts[p].frames[i] == added[p].frames[i];
      }
    }
  }

  lemma PartsNotEmpty(parts: seq<Part>)
    requires ValidParts(parts)
    ensures forall p :: 0 <= p < |parts| ==> parts[p].frames != []
  {
    forall p | 0 <= p < |parts| ensures parts[p].frames != [] {
      assert ValidPart(parts[p]);
    }
  }

  // ---- What the disk takes ------------------------------------------------

  /**
   When writing fails: after `room` bytes in all, when a part after the first
   `files` is begun (its predecessor flushed, its own file created), or when the
   last file is synced.
   */
  datatype Disk = Disk(room: nat, files: nat, syncs: bool)

  ghost function FileSize(part: Part): nat { if Writes(part) then |PartFile(part)| else 0 }

  ghost function Size(parts: seq<Part>): nat {
    if parts == [] then 0 else Size(parts[..|parts| - 1]) + FileSize(parts[|parts| - 1])
  }

  /** Every part can be written, and there is room for them all. */
  ghost predicate Fit(parts: seq<Part>, disk: Disk) {
    AllWrite(parts) && |parts| <= disk.files && Size(parts) <= disk.room
  }

  lemma SizePush(parts: seq<Part>, part: Part)
    ensures Size(parts + [part]) == Size(parts) + FileSize(part)
    ensures AllWrite(parts + [part]) <==> AllWrite(parts) && Writes(part)
  {
    hide Writes, FileSize;
    var all := parts + [part];
    assert all[..|parts|] == parts && all[|parts|] == part;
    if AllWrite(all) {
      forall p | 0 <= p < |parts| ensures Writes(parts[p]) {
        assert Writes(all[p]);
      }
    }
  }

  lemma SizePop(parts: seq<Part>)
    requires parts != []
    ensures var last := |parts| - 1;
            && Size(parts) == Size(parts[..last]) + FileSize(parts[last])
            && (AllWrite(parts) <==> AllWrite(parts[..last]) && Writes(parts[last]))
  {
    hide Writes, FileSize;
    var last := |parts| - 1;
    SizePush(parts[..last], parts[last]);
    assert parts == parts[..last] + [parts[last]];
  }

  /** Frames added later never make room. */
  lemma FitBefore(parts: seq<Part>, r: Received, disk: Disk)
    requires InRange(r) && Fit(Added(parts, r), disk) && forall p :: 0 <= p < |parts| ==> parts[p].frames != []
    ensures Fit(parts, disk)
  {
    hide Writes, PartFile, ClusterOf, Element, Size;
    AllWriteBefore(parts, r);
    var last := |parts| - 1;
    if parts != [] && parts[last].stream == r.frame.streamId {
      var grown := parts[last].(frames := parts[last].frames + [r.frame]);
      SizePop(parts);
      SizePush(parts[..last], grown);
      PartGrows(parts[last], r);
    } else if r.frame.keyframe {
      SizePush(parts, Part(r.frame.streamId, r.format, [r.frame]));
    }
  }

  lemma {:induction false} FitPrefix(received: seq<Received>, k: nat, disk: Disk)
    requires k <= |received| && Fit(PartsOf(received), disk)
    requires forall i :: 0 <= i < |received| ==> InRange(received[i])
    ensures Fit(PartsOf(received[..k]), disk)
    decreases |received|
  {
    hide Fit, ValidPart, InRange;
    var n := |received| - 1;
    if k == |received| {
      assert received[..k] == received;
    } else {
      PartsValid(received[..n]);
      PartsNotEmpty(PartsOf(received[..n]));
      FitBefore(PartsOf(received[..n]), received[n], disk);
      FitPrefix(received[..n], k, disk);
      assert received[..n][..k] == received[..k];
    }
  }

  // ---- What a failed recording leaves -------------------------------------

  /** Each file plays back as exactly the frames of its part, timed from its first. */
  ghost predicate Shows(files: seq<seq<Byte>>, parts: seq<Part>) {
    |files| == |parts| && forall p :: 0 <= p < |parts| ==> PlaysPart(files[p], parts[p])
  }

  ghost predicate PlaysPart(file: seq<Byte>, part: Part) {
    part.frames != [] && Play(file) == Some(PicturesOf(part.frames, part.frames[0].timestampUs))
  }

  /** All of these parts, and perhaps one more file without a picture. */
  ghost predicate Leaves(files: seq<seq<Byte>>, parts: seq<Part>) {
    || Shows(files, parts)
    || (|files| == |parts| + 1 && Shows(files[..|parts|], parts) && PlaysNothing(files[|parts|]))
  }

  /** Frame `n` is the first there is no room for, or that cannot be written. */
  ghost predicate FailsAt(received: seq<Received>, n: nat, disk: Disk) {
    n < |received| && Fit(PartsOf(received[..n]), disk) && !Fit(PartsOf(received[..n + 1]), disk)
  }

  /** A part's file, with any bytes after it that are no complete element, plays back as the part. */
  lemma PartPlays(part: Part, tail: seq<Byte>)
    requires Writes(part) && ReadElement(tail) == None
    ensures PlaysPart(PartFile(part) + tail, part)
  {
    hide Play, FileOf, CodecPrivateOf, PicturesOf, ClusterOf, ReadElement;
    PrivateLength(part.format.codec, part.frames[0].data);
    PlayedWithTail(part.format, CodecPrivateOf(part.format.codec, part.frames[0].data).value,
                   part.frames, part.frames[0].timestampUs, tail);
  }

  /** Every finished file plays back as exactly the frames of its part. */
  lemma PartsPlay(files: seq<seq<Byte>>, parts: seq<Part>)
    requires HoldParts(files, parts)
    ensures Shows(files, parts)
  {
    hide Writes, PartFile, PlaysPart, ReadElement;
    NothingRead();
    forall p | 0 <= p < |parts| ensures PlaysPart(files[p], parts[p]) {
      PartPlays(parts[p], []);
      assert PartFile(parts[p]) + [] == PartFile(parts[p]);
    }
  }

  lemma HeadPlaysNothing(format: VideoFormat, private: seq<Byte>, tail: seq<Byte>)
    requires |private| <= 0x100_0000 && ReadElement(tail) == None
    ensures PlaysNothing(FileHead(format, private) + tail)
  {
    hide FileHead, FileOf, Play, ReadElement;
    NoFrames(format, private, 0);
    PlayedWithTail(format, private, [], 0, tail);
    assert PicturesOf([], 0) == [];
  }

  lemma EmptyPlaysNothing()
    ensures PlaysNothing([])
  {
    hide ReadElement, ReadHead, ReadItems;
    NothingRead();
  }

  /** A file's head, cut off or not, and the start of its first cluster show nothing. */
  ghost predicate StartLeaves(head: seq<Byte>, cluster: Result<Item>, room: nat)
    requires cluster.Ok? ==> |cluster.value.data| <= MAX_DATA
  {
    && PlaysNothing(Fitting(head, room)) && PlaysNothing(head)
    && (cluster.Ok? && |Element(CLUSTER, cluster.value.data)| > room ==>
          PlaysNothing(head + Fitting(Element(CLUSTER, cluster.value.data), room)))
  }

  /** What is left of a part's file when its own first frame fails. */
  lemma StartPlaysNothing(r: Received, room: nat)
    requires InRange(r) && CodecPrivateOf(r.format.codec, r.frame.data).Ok?
    ensures |CodecPrivateOf(r.format.codec, r.frame.data).value| <= 0x100_0000
    ensures StartLeaves(FileHead(r.format, CodecPrivateOf(r.format.codec, r.frame.data).value),
                        ClusterOf(r.frame, r.frame.timestampUs), room)
  {
    hide CodecPrivateOf, ClusterOf, FileHead, Element, PlaysNothing, ReadElement;
    PrivateLength(r.format.codec, r.frame.data);
    var private := CodecPrivateOf(r.format.codec, r.frame.data).value;
    var head := FileHead(r.format, private);
    CutHeadPlaysNothing(r.format, private, if |head| <= room then |head| else room);
    CutHeadPlaysNothing(r.format, private, |head|);
    assert head[..|head|] == head;
    var cluster := ClusterOf(r.frame, r.frame.timestampUs);
    if cluster.Ok? && |Element(CLUSTER, cluster.value.data)| > room {
      TruncatedElement(CLUSTER, cluster.value.data, room);
      HeadPlaysNothing(r.format, private, Element(CLUSTER, cluster.value.data)[..room]);
    }
  }

  // ---- The source's loop --------------------------------------------------

  /** The open part and the finished files hold `parts`, and the writer knows how much room they leave. */
  ghost predicate Holds(done: seq<seq<Byte>>, writer: Writer?, stream: nat, parts: seq<Part>, disk: Disk)
    reads writer
  {
    && (if writer == null then parts == [] && done == []
        else parts != [] && WritesTo(writer, stream, parts[|parts| - 1]) && writer.room == disk.room - Size(parts))
    && (writer != null ==> HoldParts(done + [writer.output], parts))
    && Fit(parts, disk)
  }

  ghost predicate WritesTo(writer: Writer, stream: nat, part: Part) {
    part.frames != [] && part.stream == stream && writer.originUs == part.frames[0].timestampUs
  }

  lemma HoldPartsPush(files: seq<seq<Byte>>, parts: seq<Part>, file: seq<Byte>, part: Part)
    requires HoldParts(files, parts) && IsFileOf(file, part)
    ensures HoldParts(files + [file], parts + [part])
  {
    hide IsFileOf;
  }

  lemma HoldPartsPop(done: seq<seq<Byte>>, file: seq<Byte>, parts: seq<Part>)
    requires parts != [] && HoldParts(done + [file], parts)
    ensures var last := |parts| - 1;
            HoldParts(done, parts[..last]) && IsFileOf(file, parts[last])
  {
    hide IsFileOf;
    var files, last := done + [file], |parts| - 1;
    assert files[last] == file;
    assert forall p :: 0 <= p < last ==> files[p] == done[p];
  }

  lemma ShowsPush(files: seq<seq<Byte>>, parts: seq<Part>, file: seq<Byte>, part: Part)
    requires Shows(files, parts) && PlaysPart(file, part)
    ensures Shows(files + [file], parts + [part])
  {
    hide PlaysPart;
  }

  lemma LeavesOneMore(files: seq<seq<Byte>>, parts: seq<Part>, file: seq<Byte>)
    requires HoldParts(files, parts) && PlaysNothing(file)
    ensures Leaves(files + [file], parts)
  {
    hide PlaysNothing, HoldParts, PlaysPart;
    PartsPlay(files, parts);
    assert (files + [file])[..|parts|] == files && (files + [file])[|parts|] == file;
  }

  /** A keyframe of another stream: the part before is finished, and a new one starts with it. */
  method NewPart(files: seq<seq<Byte>>, next: Received, room: nat, disk: Disk, ghost parts: seq<Part>)
    returns (writer: Writer?, left: seq<seq<Byte>>)
    requires HoldParts(files, parts) && InRange(next) && Fit(parts, disk) && room == disk.room - Size(parts)
    ensures var part := Part(next.frame.streamId, next.format, [next.frame]);
            && (writer != null <==> Fit(parts + [part], disk))
            && (writer != null ==> fresh(writer) && Holds(files, writer, next.frame.streamId, parts + [part], disk))
            && (writer == null ==> Leaves(left, parts))
  {
    hide CodecPrivateOf, ClusterOf, FileHead, Element, Writes, PartFile, PlaysNothing, Shows, Size, Fitting;
    left := files;
    ghost var part := Part(next.frame.streamId, next.format, [next.frame]);
    SizePush(parts, part);
    PartStarts(next);
    InRangeMeans(next);
    if |files| >= disk.files {
      PartsPlay(files, parts);
      return null, left;
    }
    var ok;
    writer, ok := Open(next.format, next.frame, room);
    if !ok {
      if CodecPrivateOf(next.format.codec, next.frame.data).Err? {
        EmptyPlaysNothing();
      } else {
        StartPlaysNothing(next, room);
      }
      LeavesOneMore(files, parts, writer.output);
      return null, files + [writer.output];
    }
    StartPlaysNothing(next, writer.room);
    FittingAll(FileHead(next.format, CodecPrivateOf(next.format.codec, next.frame.data).value), room);
    ghost var cluster := ClusterOf(next.frame, next.frame.timestampUs);
    if cluster.Ok? {
      FittingAll(Element(CLUSTER, cluster.value.data), writer.room);
    }
    ok := writer.Frame(next.frame);
    if !ok {
      LeavesOneMore(files, parts, writer.output);
      return null, files + [writer.output];
    }
    HoldPartsPush(files, parts, writer.output, part);
    assert (parts + [part])[|parts|] == part;
  }

  lemma InRangeMeans(r: Received)
    requires InRange(r)
    ensures |r.frame.data| <= MAX_FRAME
  {
  }

  /** A frame of the part's own stream. */
  method SamePart(done: seq<seq<Byte>>, writer: Writer, next: Received, disk: Disk, ghost parts: seq<Part>) returns (ok: bool)
    requires Holds(done, writer, next.frame.streamId, parts, disk) && InRange(next)
    modifies writer
    ensures ok <==> Fit(Added(parts, next), disk)
    ensures ok ==> Holds(done, writer, next.frame.streamId, Added(parts, next), disk)
    ensures !ok ==> Leaves(done + [writer.output], parts)
  {
    hide ClusterOf, Element, Writes, PartFile, Size, Fitting, PlaysPart;
    InRangeMeans(next);
    ghost var last := |parts| - 1;
    ghost var grown := parts[last].(frames := parts[last].frames + [next.frame]);
    HoldPartsPop(done, writer.output, parts);
    PartGrows(parts[last], next);
    SizePop(parts);
    SizePush(parts[..last], grown);
    PartsPlay(done, parts[..last]);
    ghost var cluster, before := ClusterOf(next.frame, writer.originUs), writer.output;
    FrameTail(cluster, parts[last], writer.room);
    ok := writer.Frame(next.frame);
    assert parts == parts[..last] + [parts[last]];
    if ok {
      HoldPartsPush(done, parts[..last], writer.output, grown);
      assert (parts[..last] + [grown])[last] == grown;
    } else {
      ShowsPush(done, parts[..last], writer.output, parts[last]);
    }
  }

  /** However much of a frame's cluster is written, less than all of it changes nothing of what the part shows. */
  lemma FrameTail(cluster: Result<Item>, part: Part, room: nat)
    requires Writes(part) && (cluster.Ok? ==> cluster.value.id == CLUSTER && |cluster.value.data| <= MAX_DATA)
    ensures PlaysPart(PartFile(part), part)
    ensures cluster.Ok? ==>
              var bytes := Element(CLUSTER, cluster.value.data);
              if |bytes| <= room then Fitting(bytes, room) == bytes else PlaysPart(PartFile(part) + Fitting(bytes, room), part)
  {
    hide Writes, PartFile, PlaysPart, ReadElement, Element;
    NothingRead();
    PartPlays(part, []);
    assert PartFile(part) + [] == PartFile(part);
    if cluster.Ok? && |Element(CLUSTER, cluster.value.data)| > room {
      TruncatedElement(CLUSTER, cluster.value.data, room);
      PartPlays(part, Element(CLUSTER, cluster.value.data)[..room]);
    }
  }

  /** One turn of the loop. */
  method TakeFrame(done: seq<seq<Byte>>, writer: Writer?, stream: nat, count: nat, next: Received, disk: Disk,
                   ghost parts: seq<Part>)
    returns (done': seq<seq<Byte>>, writer': Writer?, stream': nat, count': nat, ok: bool)
    requires Holds(done, writer, stream, parts, disk) && InRange(next) && count == |parts|
    modifies writer
    ensures ok <==> Fit(Added(parts, next), disk)
    ensures ok ==> Holds(done', writer', stream', Added(parts, next), disk) && count' == |Added(parts, next)|
    ensures writer' == writer || (writer' != null ==> fresh(writer'))
    ensures !ok ==> Leaves(done', parts)
  {
    hide HoldParts, InRange, Leaves, Fit, Size, Added, Writes, PartFile, ClusterOf, CodecPrivateOf;
    done', writer', stream', count', ok := done, writer, stream, count, true;
    AddedCases(parts, next);
    if writer == null || stream != next.frame.streamId {
      if !next.frame.keyframe {
        return;
      }
      NothingHeld(disk);
      var room := disk.room;
      if writer != null {
        done', room := done + [writer.output], writer.room;
      }
      var left;
      writer', left := NewPart(done', next, room, disk, parts);
      stream', count', ok := next.frame.streamId, count + 1, writer' != null;
      if !ok {
        done' := left;
      }
    } else {
      ok := SamePart(done, writer, next, disk, parts);
      if !ok {
        done' := done + [writer.output];
      }
    }
  }

  /**
   `write_recording`, on any disk: the files written for the frames the queue
   delivered, and how many. Whatever fails, what is left plays back as exactly
   the frames before the first that could not be written.
   */
  method WriteRecording(received: seq<Received>, disk: Disk) returns (files: seq<seq<Byte>>, r: Result<nat>)
    requires forall i :: 0 <= i < |received| ==> InRange(received[i])
    ensures r.Ok? <==> Fit(PartsOf(received), disk) && (PartsOf(received) == [] || disk.syncs)
    ensures r.Ok? ==> r.value == |files|
    ensures Fit(PartsOf(received), disk) ==> HoldParts(files, PartsOf(received))
    ensures !Fit(PartsOf(received), disk) ==>
              exists n: nat :: FailsAt(received, n, disk) && Leaves(files, PartsOf(received[..n]))
  {
    hide *;
    var done: seq<seq<Byte>> := [];
    var writer: Writer? := null;
    var stream, count := 0, 0;
    NothingHeldYet(disk);
    for i := 0 to |received|
      invariant count == |PartsOf(received[..i])| && (writer != null ==> fresh(writer))
      invariant Holds(done, writer, stream, PartsOf(received[..i]), disk)
    {
      PartsStep(received, i);
      HeldAtLast(done, writer, stream, PartsOf(received[..i]), disk);
      var ok;
      done, writer, stream, count, ok := TakeFrame(done, writer, stream, count, received[i], disk, PartsOf(received[..i]));
      if !ok {
        NotAll(received, i, disk);
        return done, Err;
      }
    }
    assert received[..|received|] == received;
    HeldAtLast(done, writer, stream, PartsOf(received), disk);
    if writer != null {
      done := done + [writer.output];
    }
    HeldLength(done, PartsOf(received));
    return done, if writer != null && !disk.syncs then Err else Ok(count);
  }

  lemma NothingHeld(disk: Disk)
    ensures HoldParts([], []) && Fit([], disk) && Size([]) == 0 && PartsOf([]) == []
  {
  }

  lemma NothingHeldYet(disk: Disk)
    ensures Holds([], null, 0, [], disk) && PartsOf([]) == []
  {
    hide HoldParts, Fit, Size;
    NothingHeld(disk);
  }

  lemma HeldAtLast(done: seq<seq<Byte>>, writer: Writer?, stream: nat, parts: seq<Part>, disk: Disk)
    requires Holds(done, writer, stream, parts, disk)
    ensures Fit(parts, disk) && (writer == null <==> parts == [])
    ensures HoldParts(if writer == null then done else done + [writer.output], parts)
  {
    hide HoldParts, Fit, Size;
    NothingHeld(disk);
  }

  lemma PartsStep(received: seq<Received>, i: nat)
    requires i < |received|
    ensures PartsOf(received[..i + 1]) == Added(PartsOf(received[..i]), received[i])
  {
    hide Added;
    assert received[..i + 1][..i] == received[..i];
  }

  lemma AddedCases(parts: seq<Part>, r: Received)
    ensures PartStream(parts) != Some(r.frame.streamId) ==>
              Added(parts, r) == if r.frame.keyframe then parts + [Part(r.frame.streamId, r.format, [r.frame])] else parts
    ensures PartStream(parts) == Some(r.frame.streamId) ==> |Added(parts, r)| == |parts|
  {
  }

  lemma HeldLength(files: seq<seq<Byte>>, parts: seq<Part>)
    requires HoldParts(files, parts)
    ensures |files| == |parts|
  {
  }

  lemma NotAll(received: seq<Received>, i: nat, disk: Disk)
    requires i < |received| && Fit(PartsOf(received[..i]), disk) && !Fit(PartsOf(received[..i + 1]), disk)
    requires forall i :: 0 <= i < |received| ==> InRange(received[i])
    ensures !Fit(PartsOf(received), disk) && FailsAt(received, i, disk)
  {
    hide Fit, InRange;
    if Fit(PartsOf(received), disk) {
      FitPrefix(received, i + 1, disk);
    }
  }
}
