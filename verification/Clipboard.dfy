/** agent/protocol/src/clipboard.rs: sending a clipboard in chunks and putting it together again. */
module Clipboard {
  import opened Bytes
  import opened Postcard

  const MAX_TEXT: nat := 60 * 1024
  const MAX_BYTES: nat := 32 * 1024 * 1024
  const MAX_WIRE: nat := MAX_BYTES + 64
  const CHUNK: nat := 60 * 1024

  datatype Content =
    | Text(text: seq<Byte>)
    | Html(html: seq<Byte>, plain: seq<Byte>)
    | Image(width: nat, height: nat, rgba: seq<Byte>)

  /** What the types say: text is UTF-8, sizes are 32-bit. */
  ghost predicate Typed(c: Content) {
    match c
    case Text(text) => IsUtf8(text)
    case Html(html, plain) => IsUtf8(html) && IsUtf8(plain)
    case Image(width, height, _) => width < 0x1_0000_0000 && height < 0x1_0000_0000
  }

  /** `ClipboardContent::valid`. */
  predicate Valid(c: Content) {
    match c
    case Text(text) => |text| <= MAX_BYTES
    case Html(html, plain) => |html| + |plain| <= MAX_BYTES
    case Image(width, height, rgba) =>
      width > 0 && height > 0 && |rgba| <= MAX_BYTES && width * height == |rgba| / 4 && |rgba| % 4 == 0
  }

  /** An image is valid exactly when it has pixels, four bytes for each, and no more than 32 MiB of them. */
  lemma ValidImage(width: nat, height: nat, rgba: seq<Byte>)
    ensures Valid(Image(width, height, rgba)) <==>
              width >= 1 && height >= 1 && |rgba| == 4 * (width * height) && |rgba| <= 33_554_432
  {
  }

  // ---- The wire form ------------------------------------------------------

  function ToWire(c: Content): seq<Byte> {
    match c
    case Text(text) => Varint(0) + Prefixed(text)
    case Html(html, plain) => Varint(1) + (Prefixed(html) + Prefixed(plain))
    case Image(width, height, rgba) => Varint(2) + (Varint(width) + (Varint(height) + Prefixed(rgba)))
  }

  /** `ClipboardContent::encode`. */
  function Encode(c: Content): Result<seq<Byte>> { if Valid(c) then Ok(ToWire(c)) else Err }

  function FromWire(s: seq<Byte>): Option<(Content, seq<Byte>)> {
    match ReadU32(s)
    case None => None
    case Some((tag, rest)) =>
      if tag == 0 then
        match ReadText(rest)
        case None => None
        case Some((text, rest)) => Some((Text(text), rest))
      else if tag == 1 then ReadHtml(rest)
      else if tag == 2 then ReadImage(rest)
      else None
  }

  function ReadHtml(s: seq<Byte>): Option<(Content, seq<Byte>)> {
    match ReadText(s)
    case None => None
    case Some((html, rest)) =>
      match ReadText(rest)
      case None => None
      case Some((plain, rest)) => Some((Html(html, plain), rest))
  }

  function ReadImage(s: seq<Byte>): Option<(Content, seq<Byte>)> {
    match ReadU32(s)
    case None => None
    case Some((width, rest)) =>
      match ReadU32(rest)
      case None => None
      case Some((height, rest)) =>
        match ReadPrefixed(rest)
        case None => None
        case Some((rgba, rest)) => Some((Image(width, height, rgba), rest))
  }

  /** `ClipboardContent::decode`. */
  function Decode(bytes: seq<Byte>): Result<Content> {
    if |bytes| > MAX_WIRE then Err
    else
      match FromWire(bytes)
      case None => Err
      case Some((content, rest)) => if Valid(content) && rest == [] then Ok(content) else Err
  }

  lemma WireRead(c: Content)
    requires Typed(c) && Valid(c)
    ensures FromWire(ToWire(c)) == Some((c, []))
  {
    hide Varint, ReadU32, ReadPrefixed, Prefixed, IsUtf8;
    match c
    case Text(text) =>
      U32Read(0, Prefixed(text));
      PrefixedRead(text, []);
      assert Prefixed(text) + [] == Prefixed(text);
    case Html(html, plain) =>
      U32Read(1, Prefixed(html) + Prefixed(plain));
      PrefixedRead(html, Prefixed(plain));
      PrefixedRead(plain, []);
      assert Prefixed(plain) + [] == Prefixed(plain);
    case Image(width, height, rgba) =>
      U32Read(2, Varint(width) + (Varint(height) + Prefixed(rgba)));
      U32Read(width, Varint(height) + Prefixed(rgba));
      U32Read(height, Prefixed(rgba));
      PrefixedRead(rgba, []);
      assert Prefixed(rgba) + [] == Prefixed(rgba);
  }

  lemma WireLength(c: Content)
    requires Typed(c) && Valid(c)
    ensures 0 < |ToWire(c)| <= MAX_WIRE
  {
    hide Varint, Power128, IsUtf8;
    Powers();
    VarintLength(0, 5);
    VarintLength(1, 5);
    VarintLength(2, 5);
    match c
    case Text(text) => VarintLength(|text|, 5);
    case Html(html, plain) => VarintLength(|html|, 5); VarintLength(|plain|, 5);
    case Image(width, height, rgba) =>
      VarintLength(width, 5);
      VarintLength(height, 5);
      VarintLength(|rgba|, 5);
  }

  lemma Powers()
    ensures Power128(5) == 0x8_0000_0000
  {
    Powers128();
  }

  /** Decoding undoes encoding, for every valid content. */
  lemma EncodeDecode(c: Content)
    requires Typed(c) && Valid(c)
    ensures Encode(c).Ok? && Decode(Encode(c).value) == Ok(c)
  {
    hide ToWire, FromWire;
    WireRead(c);
    WireLength(c);
  }

  /** Whatever is decoded is valid and well typed. */
  lemma DecodedIsValid(bytes: seq<Byte>)
    ensures Decode(bytes).Ok? ==> Valid(Decode(bytes).value) && Typed(Decode(bytes).value)
  {
    hide IsUtf8;
    forall s ensures ReadU32(s).Some? ==> ReadU32(s).value.0 < 0x1_0000_0000 {
      U32Bound(s);
    }
  }

  lemma U32Bound(s: seq<Byte>)
    ensures ReadU32(s).Some? ==> ReadU32(s).value.0 < 0x1_0000_0000
  {
    VarintBound(s, 0, 5, 15);
    Powers128();
  }

  lemma {:induction false} VarintBound(s: seq<Byte>, i: nat, max: nat, lastMax: nat)
    requires i < max && lastMax < 128
    ensures var r := ReadVarint(s, i, max, lastMax);
            r.Some? ==> r.value.0 < (lastMax + 1) * Power128(max - 1 - i)
    decreases max - i
  {
    if s != [] && i < max - 1 {
      VarintBound(s[1..], i + 1, max, lastMax);
      var p := Power128(max - 2 - i);
      assert (lastMax + 1) * (128 * p) == 128 * ((lastMax + 1) * p);
      assert (lastMax + 1) * p >= 1;
    } else {
      assert Power128(0) == 1;
    }
  }

  // ---- Messages -----------------------------------------------------------

  /** Session messages, as far as the clipboard is concerned. */
  datatype Message = ShortText(text: seq<Byte>) | Chunk(offset: nat, total: nat, data: seq<Byte>) | Other

  function ChunksFrom(bytes: seq<Byte>, at: nat): seq<Message>
    decreases |bytes| - at
  {
    if at >= |bytes| then []
    else
      var end := if at + CHUNK < |bytes| then at + CHUNK else |bytes|;
      [Chunk(at, |bytes|, bytes[at..end])] + ChunksFrom(bytes, at + CHUNK)
  }

  /** `ClipboardContent::messages`. */
  function Messages(c: Content): Result<seq<Message>> {
    if c.Text? && |c.text| <= MAX_TEXT then Ok([ShortText(c.text)])
    else
      var bytes :- Encode(c);
      Ok(ChunksFrom(bytes, 0))
  }

  /** Every chunk but the last has 60 KiB, the last no more, and each says where it belongs and how much there is in all. */
  lemma {:induction false} ChunksAreFull(bytes: seq<Byte>, at: nat, i: nat)
    requires i < |ChunksFrom(bytes, at)|
    ensures var chunks := ChunksFrom(bytes, at);
            && chunks[i].Chunk? && chunks[i].total == |bytes| && chunks[i].offset == at + i * 61_440 < |bytes|
            && |chunks[i].data| == (if i < |chunks| - 1 then 61_440 else |bytes| - chunks[i].offset) <= 61_440
    decreases |bytes| - at
  {
    var end := if at + CHUNK < |bytes| then at + CHUNK else |bytes|;
    var rest := ChunksFrom(bytes, at + CHUNK);
    assert ChunksFrom(bytes, at) == [Chunk(at, |bytes|, bytes[at..end])] + rest;
    assert rest != [] <==> at + CHUNK < |bytes|;
    if i > 0 {
      ChunksAreFull(bytes, at + CHUNK, i - 1);
      assert ChunksFrom(bytes, at)[i] == rest[i - 1];
      assert i * 61_440 == (i - 1) * 61_440 + 61_440;
    }
  }

  // ---- The receiver -------------------------------------------------------

  datatype State = State(bytes: seq<Byte>, total: nat)

  const EMPTY := State([], 0)

  /** What a message brings about: nothing yet, a clipboard, or an error. */
  datatype Outcome = Nothing | Delivered(content: Content) | Failed

  /** The state after `receive`. */
  function Next(s: State, m: Message): State {
    match m
    case ShortText(_) => EMPTY
    case Chunk(offset, total, data) =>
      var s := if offset == 0 then State([], total) else s;
      if !Acceptable(s, offset, total, data) || |s.bytes| + |data| == total then EMPTY
      else State(s.bytes + data, s.total)
    case Other => s
  }

  function DecodedOutcome(bytes: seq<Byte>): Outcome {
    match Decode(bytes)
    case Err => Failed
    case Ok(content) => Delivered(content)
  }

  /** What `receive` returns. */
  function OutcomeOf(s: State, m: Message): Outcome {
    match m
    case ShortText(text) => if |text| > MAX_TEXT then Failed else Delivered(Text(text))
    case Chunk(offset, total, data) =>
      var s := if offset == 0 then State([], total) else s;
      if !Acceptable(s, offset, total, data) then Failed
      else if |s.bytes| + |data| < total then Nothing
      else DecodedOutcome(s.bytes + data)
    case Other => Failed
  }

  predicate Acceptable(s: State, offset: nat, total: nat, data: seq<Byte>) {
    && 0 < total <= MAX_WIRE && total == s.total && offset == |s.bytes|
    && 0 < |data| <= CHUNK && offset + |data| <= total
  }

  /** `ClipboardReceiver`. */
  class Receiver {
    var bytes: seq<Byte>
    var total: nat

    ghost function View(): State
      reads this
    {
      State(bytes, total)
    }

    constructor ()
      ensures View() == EMPTY
    {
      bytes, total := [], 0;
    }

    method Receive(message: Message) returns (r: Outcome)
      modifies this
      ensures View() == Next(old(View()), message)
      ensures r == OutcomeOf(old(View()), message)
    {
      hide Decode;
      match message
      case ShortText(text) =>
        bytes := [];
        total := 0;
        if |text| > MAX_TEXT {
          return Failed;
        }
        return Delivered(Text(text));
      case Chunk(offset, announced, data) =>
        if offset == 0 {
          bytes := [];
          total := announced;
        }
        if announced == 0 || announced > MAX_WIRE || announced != total || offset != |bytes|
           || |data| == 0 || |data| > CHUNK || offset + |data| > announced {
          bytes := [];
          total := 0;
          return Failed;
        }
        bytes := bytes + data;
        if |bytes| == announced {
          var content := Decode(bytes);
          bytes := [];
          total := 0;
          return if content.Ok? then Delivered(content.value) else Failed;
        }
        return Nothing;
      case Other => return Failed;
    }
  }

  // ---- Whole runs ---------------------------------------------------------

  function After(s: State, messages: seq<Message>): State
    decreases |messages|
  {
    if messages == [] then s else After(Next(s, messages[0]), messages[1..])
  }

  /** What each message of a run brings about. */
  function Outcomes(s: State, messages: seq<Message>): (r: seq<Outcome>)
    ensures |r| == |messages|
    decreases |messages|
  {
    if messages == [] then [] else [OutcomeOf(s, messages[0])] + Outcomes(Next(s, messages[0]), messages[1..])
  }

  /** Nothing until the last, which delivers `c`. */
  predicate OnlyLast(outcomes: seq<Outcome>, c: Content) {
    && outcomes != [] && outcomes[|outcomes| - 1] == Delivered(c)
    && forall i :: 0 <= i < |outcomes| - 1 ==> outcomes[i] == Nothing
  }

  /** The chunks from `at` on, fed to a receiver that holds exactly the bytes before. */
  lemma {:induction false} ChunksReceived(s: State, bytes: seq<Byte>, at: nat, c: Content)
    requires at < |bytes| <= MAX_WIRE && Decode(bytes) == Ok(c)
    requires at > 0 ==> s == State(bytes[..at], |bytes|)
    ensures OnlyLast(Outcomes(s, ChunksFrom(bytes, at)), c)
    ensures After(s, ChunksFrom(bytes, at)) == EMPTY
    decreases |bytes| - at
  {
    hide Decode;
    var end := if at + CHUNK < |bytes| then at + CHUNK else |bytes|;
    var first, rest := Chunk(at, |bytes|, bytes[at..end]), ChunksFrom(bytes, at + CHUNK);
    var messages := ChunksFrom(bytes, at);
    assert messages[0] == first && messages[1..] == rest;
    assert bytes[..at] + bytes[at..end] == bytes[..end];
    assert at == 0 ==> [] + bytes[at..end] == bytes[..end];
    if end == |bytes| {
      assert bytes[..end] == bytes && rest == [];
      assert Outcomes(s, messages) == [Delivered(c)] + [];
    } else {
      var next := Next(s, first);
      assert next == State(bytes[..end], |bytes|);
      ChunksReceived(next, bytes, end, c);
    }
  }

  /**
   From any receiver state, feeding all messages of a valid content yields
   nothing until the last message, and then exactly that content.
   */
  lemma DeliveredFromAnyState(s: State, c: Content)
    requires Typed(c) && Valid(c)
    ensures Messages(c).Ok?
    ensures OnlyLast(Outcomes(s, Messages(c).value), c)
    ensures After(s, Messages(c).value) == EMPTY
  {
    hide ToWire, Decode, Valid;
    if c.Text? && |c.text| <= MAX_TEXT {
      var messages := [ShortText(c.text)];
      assert messages[1..] == [];
      assert Outcomes(s, messages) == [Delivered(c)] + Outcomes(EMPTY, []);
    } else {
      EncodeDecode(c);
      WireLength(c);
      ChunksReceived(s, ToWire(c), 0, c);
    }
  }

  /** Content that is too large, or an image of the wrong size, is not sent at all. */
  lemma InvalidIsNotSent(c: Content)
    requires Typed(c)
    ensures Messages(c).Err? <==> !Valid(c)
  {
  }

  function ClipboardOnly(messages: seq<Message>): seq<Message> {
    if messages == [] then []
    else (if messages[0].Other? then [] else [messages[0]]) + ClipboardOnly(messages[1..])
  }

  /** Messages that are none of the clipboard's, wherever they come, do not disturb a transfer. */
  lemma {:induction false} OthersDoNotDisturb(s: State, messages: seq<Message>)
    ensures After(s, messages) == After(s, ClipboardOnly(messages))
    decreases |messages|
  {
    hide Next;
    if messages != [] {
      var rest := ClipboardOnly(messages[1..]);
      OthersDoNotDisturb(Next(s, messages[0]), messages[1..]);
      if messages[0].Other? {
        OtherIsIgnored(s);
        assert [] + rest == rest;
      } else {
        assert ([messages[0]] + rest)[1..] == rest;
      }
    }
  }

  lemma OtherIsIgnored(s: State)
    ensures Next(s, Other) == s
  {
  }

  /** The receiver is empty, or holds fewer bytes than a total within the wire limit. */
  predicate Bounded(s: State) { s == EMPTY || 0 < |s.bytes| < s.total <= MAX_WIRE }

  lemma {:induction false} AlwaysBounded(s: State, messages: seq<Message>)
    requires Bounded(s)
    ensures Bounded(After(s, messages))
    decreases |messages|
  {
    if messages != [] {
      AlwaysBounded(Next(s, messages[0]), messages[1..]);
    }
  }

  /**
   The end of `messages` is one transfer of `total` announced bytes, of which
   `bytes` have come: chunks that follow one another from offset zero, among
   messages that are none of the clipboard's.
   */
  ghost predicate Assembles(messages: seq<Message>, total: nat, bytes: seq<Byte>)
    decreases |messages|
  {
    messages != [] &&
    var n := |messages| - 1;
    match messages[n]
    case ShortText(_) => false
    case Other => Assembles(messages[..n], total, bytes)
    case Chunk(offset, announced, data) =>
      && announced == total && data != [] && offset + |data| == |bytes| && bytes[offset..] == data
      && (offset > 0 ==> Assembles(messages[..n], total, bytes[..offset]))
  }

  /** The state after a run, counted from the end. */
  function AfterAll(messages: seq<Message>): State
    decreases |messages|
  {
    if messages == [] then EMPTY else Next(AfterAll(messages[..|messages| - 1]), messages[|messages| - 1])
  }

  lemma {:induction false} AfterAllIsAfter(s: State, messages: seq<Message>, m: Message)
    ensures After(s, messages + [m]) == Next(After(s, messages), m)
    decreases |messages|
  {
    if messages == [] {
      assert ([m])[1..] == [];
      assert messages + [m] == [m];
    } else {
      assert (messages + [m])[1..] == messages[1..] + [m];
      AfterAllIsAfter(Next(s, messages[0]), messages[1..], m);
    }
  }

  lemma {:induction false} RunIsAfterAll(messages: seq<Message>)
    ensures After(EMPTY, messages) == AfterAll(messages)
    decreases |messages|
  {
    if messages != [] {
      var n := |messages| - 1;
      RunIsAfterAll(messages[..n]);
      AfterAllIsAfter(EMPTY, messages[..n], messages[n]);
      assert messages[..n] + [messages[n]] == messages;
    }
  }

  lemma {:induction false} HoldsOneAfterAll(messages: seq<Message>)
    ensures var s := AfterAll(messages);
            Bounded(s) && (s != EMPTY ==> Assembles(messages, s.total, s.bytes))
    decreases |messages|
  {
    if messages != [] {
      var n := |messages| - 1;
      HoldsOneAfterAll(messages[..n]);
      ReceivedInOrder(messages, AfterAll(messages[..n]));
    }
  }

  /** Under arbitrary messages, what the receiver holds is always one unfinished transfer. */
  lemma HoldsOneTransfer(messages: seq<Message>)
    ensures var s := After(EMPTY, messages);
            Bounded(s) && (s != EMPTY ==> Assembles(messages, s.total, s.bytes))
  {
    HoldsOneAfterAll(messages);
    RunIsAfterAll(messages);
  }

  /** The bytes after an accepted chunk are those before it, of the same transfer, and the chunk. */
  lemma ReceivedInOrder(messages: seq<Message>, before: State)
    requires messages != [] && Bounded(before)
    requires before != EMPTY ==> Assembles(messages[..|messages| - 1], before.total, before.bytes)
    ensures var m := messages[|messages| - 1];
            var after := Next(before, m);
            && Bounded(after)
            && (after != EMPTY ==> Assembles(messages, after.total, after.bytes))
            && (m.Chunk? && OutcomeOf(before, m).Delivered? ==>
                  var bytes := (if m.offset == 0 then [] else before.bytes) + m.data;
                  && |bytes| == m.total && Assembles(messages, m.total, bytes)
                  && Decode(bytes) == Ok(OutcomeOf(before, m).content))
  {
    hide Decode;
    var m := messages[|messages| - 1];
    if m.Chunk? && m.offset > 0 && Acceptable(before, m.offset, m.total, m.data) {
      var bytes := before.bytes + m.data;
      assert bytes[m.offset..] == m.data && bytes[..m.offset] == before.bytes;
    } else if m.Chunk? && m.offset == 0 {
      assert [] + m.data == m.data && m.data[0..] == m.data;
    }
  }

  /** `c` was decoded from the bytes of a single transfer that the last message completed. */
  ghost predicate FromOneTransfer(messages: seq<Message>, c: Content) {
    && messages != [] && messages[|messages| - 1].Chunk?
    && var total := messages[|messages| - 1].total;
       exists bytes :: |bytes| == total && Assembles(messages, total, bytes) && Decode(bytes) == Ok(c)
  }

  /**
   Under arbitrary messages, a delivered clipboard is valid, and either came as
   one short text or was put together from the chunks of a single transfer.
   */
  lemma DeliveriesAreWhole(messages: seq<Message>, c: Content)
    requires messages != []
    requires forall m :: m in messages && m.ShortText? ==> IsUtf8(m.text)
    requires OutcomeOf(After(EMPTY, messages[..|messages| - 1]), messages[|messages| - 1]) == Delivered(c)
    ensures Valid(c) && Typed(c)
    ensures messages[|messages| - 1].Chunk? ==> FromOneTransfer(messages, c)
    ensures !messages[|messages| - 1].Chunk? ==> c.Text? && messages[|messages| - 1] == ShortText(c.text)
  {
    hide Decode, IsUtf8, Assembles;
    var n := |messages| - 1;
    var m, before := messages[n], After(EMPTY, messages[..n]);
    assert m in messages;
    if m.Chunk? {
      HoldsOneTransfer(messages[..n]);
      ReceivedInOrder(messages, before);
      DecodedIsValid((if m.offset == 0 then [] else before.bytes) + m.data);
    }
  }
}
