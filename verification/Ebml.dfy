/** EBML elements: `element` and `uint` of remote/src/matroska.rs, and a reader by sections 4 to 6 of RFC 8794. */
module Ebml {
  import opened Bytes

  // ---- Writing ------------------------------------------------------------

  /** `1u64 << (7 * w)`. */
  function SizeLimit(w: nat): nat
    requires 1 <= w <= 8
  {
    [0x80, 0x4000, 0x20_0000, 0x1000_0000, 0x8_0000_0000, 0x400_0000_0000, 0x2_0000_0000_0000,
     0x100_0000_0000_0000][w - 1]
  }

  const MAX_DATA: nat := 0xff_ffff_ffff_ffff - 1

  /** The first width from `w` on whose largest value is above `length`. */
  function WidthFrom(length: nat, w: nat): (width: nat)
    requires 1 <= w <= 8 && length <= MAX_DATA
    ensures 1 <= width <= 8 && length < SizeLimit(width) - 1
    decreases 8 - w
  {
    if length < SizeLimit(w) - 1 then w else WidthFrom(length, w + 1)
  }

  function IdBytes(id: nat): (s: seq<Byte>)
    ensures 0 < |s| <= 4
  {
    Shortest(ToBytes(id, 4))
  }

  function SizeBytes(length: nat): seq<Byte>
    requires length <= MAX_DATA
  {
    var width := WidthFrom(length, 1);
    ToBytes(length + SizeLimit(width), 8)[8 - width..]
  }

  /** `element`: ID, size and data. */
  function Element(id: nat, data: seq<Byte>): seq<Byte>
    requires |data| <= MAX_DATA
  {
    IdBytes(id) + (SizeBytes(|data|) + data)
  }

  // ---- Reading ------------------------------------------------------------

  /** The length of a variable-size integer, by its first byte; zero when there is none. */
  function VintWidth(first: Byte): nat {
    if first >= 128 then 1 else if first >= 64 then 2 else if first >= 32 then 3 else if first >= 16 then 4
    else if first >= 8 then 5 else if first >= 4 then 6 else if first >= 2 then 7 else if first >= 1 then 8 else 0
  }

  datatype Size = Known(length: nat) | Unknown

  datatype Head = Head(id: nat, size: Size, length: nat)

  /** An element's ID, with its marker bits. */
  function ReadId(s: seq<Byte>): Option<nat> {
    if s == [] || VintWidth(s[0]) == 0 || VintWidth(s[0]) > 4 || VintWidth(s[0]) > |s| then None
    else Some(FromBytes(s[..VintWidth(s[0])]))
  }

  /** An element's size; all value bits set means unknown. */
  function ReadSize(s: seq<Byte>): Option<Size> {
    if s == [] || VintWidth(s[0]) == 0 || VintWidth(s[0]) > |s| then None
    else
      var w := VintWidth(s[0]);
      var v := FromBytes(s[..w]) - SizeLimit(w);
      if v == SizeLimit(w) - 1 then Some(Unknown) else if v < 0 then None else Some(Known(v))
  }

  function ReadHead(s: seq<Byte>): Option<Head> {
    match ReadId(s)
    case None => None
    case Some(id) =>
      var rest := s[VintWidth(s[0])..];
      match ReadSize(rest)
      case None => None
      case Some(size) => Some(Head(id, size, VintWidth(s[0]) + VintWidth(rest[0])))
  }

  datatype Item = Item(id: nat, data: seq<Byte>)

  /** One complete element of known size, and what follows. */
  function ReadElement(s: seq<Byte>): (r: Option<(Item, seq<Byte>)>)
    ensures r.Some? ==> |r.value.1| < |s|
  {
    match ReadHead(s)
    case None => None
    case Some(head) =>
      if head.size.Unknown? || head.length + head.size.length > |s| then None
      else Some((Item(head.id, s[head.length..head.length + head.size.length]), s[head.length + head.size.length..]))
  }

  /** The complete elements at the start of `s`; a truncated one ends them. */
  function ReadItems(s: seq<Byte>): seq<Item>
    decreases |s|
  {
    match ReadElement(s)
    case None => []
    case Some((item, rest)) => [item] + ReadItems(rest)
  }

  // ---- Reading back what was written --------------------------------------

  /** IDs whose own first byte says how long they are. */
  predicate ValidId(id: nat) {
    || 0x80 <= id <= 0xff
    || 0x4000 <= id <= 0x7fff
    || 0x20_0000 <= id <= 0x3f_ffff
    || 0x1000_0000 <= id <= 0x1fff_ffff
  }

  lemma {:induction false} LowBytes(n: nat, width: nat, k: nat)
    requires k <= width
    ensures ToBytes(n, width)[width - k..] == ToBytes(n, k)
    decreases k
  {
    if k > 0 {
      var s := ToBytes(n, width);
      assert s[width - k..] == s[..width - 1][width - k..] + [s[width - 1]];
      LowBytes(n / 256, width - 1, k - 1);
    } else {
      assert ToBytes(n, width)[width..] == [];
    }
  }

  /** The first byte of a number that lies between two multiples of the top place value. */
  lemma {:induction false} FirstByte(n: nat, width: nat, low: nat, high: nat)
    requires width > 0 && high <= 256
    requires low * Power256(width - 1) <= n < high * Power256(width - 1)
    ensures low <= ToBytes(n, width)[0] as nat < high
  {
    if width == 1 {
      assert ToBytes(n, 1) == ToBytes(n / 256, 0) + [(n % 256) as Byte];
    } else {
      var p := Power256(width - 2);
      assert low * (256 * p) == 256 * (low * p) && high * (256 * p) == 256 * (high * p);
      FirstByte(n / 256, width - 1, low, high);
    }
  }

  /** The value of the marker bit of a width, in the first byte. */
  function Marker(w: nat): nat
    requires 1 <= w <= 8
  {
    [128, 64, 32, 16, 8, 4, 2, 1][w - 1]
  }

  lemma SizeLimitIsMarker(w: nat)
    requires 1 <= w <= 8
    ensures SizeLimit(w) == Marker(w) * Power256(w - 1) && 2 * SizeLimit(w) <= Power256(w)
  {
    assert Power256(0) == 1 && Power256(1) == 0x100 && Power256(2) == 0x1_0000;
    assert Power256(3) == 0x100_0000 && Power256(4) == 0x1_0000_0000;
    assert Power256(5) == 0x100_0000_0000 && Power256(6) == 0x1_0000_0000_0000;
    assert Power256(7) == 0x100_0000_0000_0000 && Power256(8) == 0x1_0000_0000_0000_0000;
  }

  lemma MarkerWidth(first: Byte, w: nat)
    requires 1 <= w <= 8 && Marker(w) <= first as nat < 2 * Marker(w)
    ensures VintWidth(first) == w
  {
  }

  /** The bytes of a variable-size integer: as long as its first byte says. */
  lemma VintBytes(v: nat, w: nat)
    requires 1 <= w <= 8 && v < SizeLimit(w)
    ensures var s := ToBytes(v + SizeLimit(w), w);
            VintWidth(s[0]) == w && FromBytes(s) == v + SizeLimit(w)
  {
    hide SizeLimit, Marker, VintWidth, Power256;
    SizeLimitIsMarker(w);
    var n, p := v + SizeLimit(w), Power256(w - 1);
    assert (2 * Marker(w)) * p == 2 * (Marker(w) * p);
    MarkerBound(w);
    FirstByte(n, w, Marker(w), 2 * Marker(w));
    MarkerWidth(ToBytes(n, w)[0], w);
    FromToBytes(n, w);
  }

  lemma MarkerBound(w: nat)
    requires 1 <= w <= 8
    ensures 1 <= Marker(w) <= 128
  {
  }

  /** A written size is read back, and is never the reserved unknown size. */
  lemma SizeRead(length: nat, rest: seq<Byte>)
    requires length <= MAX_DATA
    ensures var size := SizeBytes(length);
            && size != [] && VintWidth(size[0]) == |size|
            && ReadSize(size + rest) == Some(Known(length))
  {
    hide SizeLimit, VintWidth, ToBytes, FromBytes;
    var w := WidthFrom(length, 1);
    LowBytes(length + SizeLimit(w), 8, w);
    VintBytes(length, w);
    var size := SizeBytes(length);
    assert (size + rest)[..w] == size;
  }

  lemma IdIsVint(id: nat)
    requires ValidId(id)
    ensures var w := |IdBytes(id)|;
            w <= 4 && VintWidth(IdBytes(id)[0]) == w && FromBytes(IdBytes(id)) == id
  {
    Power256At4();
    FromToBytes(id, 4);
    FromShortest(ToBytes(id, 4));
    FourBytes(id);
  }

  lemma Power256At4()
    ensures Power256(4) == 0x1_0000_0000
  {
    assert Power256(2) == 0x1_0000;
  }

  lemma FourBytes(id: nat)
    requires ValidId(id)
    ensures IdBytes(id) != [] && VintWidth(IdBytes(id)[0]) == |IdBytes(id)|
  {
    hide ToBytes, Shortest, VintWidth;
    UnrolledBytes(id);
    var s := ToBytes(id, 4);
    ShortestOfFour(s);
    if id <= 0xff {
      assert s[0] == 0 && s[1] == 0 && s[2] == 0;
    } else if id <= 0x7fff {
      assert s[0] == 0 && s[1] == 0 && s[2] >= 64;
    } else if id <= 0x3f_ffff {
      assert s[0] == 0 && 32 <= s[1] < 64;
    } else {
      assert 16 <= s[0] < 32;
    }
    WidthByRange(s[0], s[1], s[2], s[3]);
  }

  lemma UnrolledBytes(n: nat)
    ensures ToBytes(n, 4) == [(n / 0x100_0000 % 256) as Byte, (n / 0x1_0000 % 256) as Byte,
                              (n / 0x100 % 256) as Byte, (n % 256) as Byte]
  {
    assert ToBytes(n / 256, 3) == ToBytes(n / 256 / 256, 2) + [(n / 256 % 256) as Byte];
    assert ToBytes(n / 256 / 256, 2) == ToBytes(n / 256 / 256 / 256, 1) + [(n / 256 / 256 % 256) as Byte];
    assert ToBytes(n / 256 / 256 / 256, 1) == [] + [(n / 256 / 256 / 256 % 256) as Byte];
  }

  lemma WidthByRange(a: Byte, b: Byte, c: Byte, d: Byte)
    ensures 16 <= a < 32 ==> VintWidth(a) == 4
    ensures 32 <= b < 64 ==> VintWidth(b) == 3
    ensures 64 <= c < 128 ==> VintWidth(c) == 2
    ensures 128 <= d ==> VintWidth(d) == 1
  {
  }

  lemma ShortestOfFour(s: seq<Byte>)
    requires |s| == 4
    ensures Shortest(s) == if s[0] != 0 then s else if s[1] != 0 then s[1..] else if s[2] != 0 then s[2..] else s[3..]
  {
    var s1, s2, s3 := s[1..], s[2..], s[3..];
    assert s1[1..] == s2 && s2[1..] == s3;
    assert Shortest(s3) == s3;
    assert Shortest(s2) == if s[2] == 0 then s3 else s2;
    assert Shortest(s1) == if s[1] == 0 then Shortest(s2) else s1;
  }

  // ---- Whole elements -----------------------------------------------------

  /** The head of an element is read back, whatever data follows. */
  lemma HeadRead(id: nat, size: seq<Byte>, parsed: Size, rest: seq<Byte>)
    requires ValidId(id) && size != [] && VintWidth(size[0]) == |size| && ReadSize(size + rest) == Some(parsed)
    ensures ReadHead(IdBytes(id) + (size + rest)) == Some(Head(id, parsed, |IdBytes(id)| + |size|))
  {
    hide IdBytes, FromBytes, VintWidth, ReadSize;
    var bytes := IdBytes(id);
    IdIsVint(id);
    var s := bytes + (size + rest);
    assert s[..|bytes|] == bytes && s[|bytes|..] == size + rest;
  }

  /** An element is read back exactly, whatever follows it. */
  lemma ElementRead(id: nat, data: seq<Byte>, rest: seq<Byte>)
    requires ValidId(id) && |data| <= MAX_DATA
    ensures ReadElement(Element(id, data) + rest) == Some((Item(id, data), rest))
  {
    hide ReadHead, IdBytes, SizeBytes, VintWidth, ReadSize;
    var size := SizeBytes(|data|);
    SizeRead(|data|, data + rest);
    HeadRead(id, size, Known(|data|), data + rest);
    var s := IdBytes(id) + (size + (data + rest));
    assert Element(id, data) + rest == s;
    var at := |IdBytes(id)| + |size|;
    assert s[at..at + |data|] == data && s[at + |data|..] == rest;
  }

  /** Cutting an element short anywhere leaves nothing to read. */
  lemma TruncatedElement(id: nat, data: seq<Byte>, cut: nat)
    requires ValidId(id) && |data| <= MAX_DATA && cut < |Element(id, data)|
    ensures ReadElement(Element(id, data)[..cut]) == None
  {
    hide IdBytes, SizeBytes, FromBytes, SizeLimit, VintWidth;
    var bytes, size := IdBytes(id), SizeBytes(|data|);
    var s := Element(id, data)[..cut];
    IdIsVint(id);
    if cut == 0 || cut < |bytes| {
      assert cut > 0 ==> s[0] == bytes[0];
    } else {
      var rest := s[|bytes|..];
      SizeRead(|data|, data);
      assert s[0] == bytes[0] && s[..|bytes|] == bytes;
      if |rest| < |size| {
        assert |rest| > 0 ==> rest[0] == size[0];
      } else {
        var some := data[..cut - |bytes| - |size|];
        SizeRead(|data|, some);
        assert (size + data)[..cut - |bytes|] == size + some;
        assert s == bytes + (size + some);
        HeadRead(id, size, Known(|data|), some);
      }
    }
  }

  lemma ElementLength(id: nat, data: seq<Byte>)
    requires |data| <= MAX_DATA
    ensures |data| < |Element(id, data)| <= |data| + 12
  {
  }

  /** A list of elements, written one after the other. */
  function Written(items: seq<Item>): seq<Byte>
    requires forall item :: item in items ==> |item.data| <= MAX_DATA
  {
    if items == [] then []
    else
      assert items[0] in items && forall item :: item in items[1..] ==> item in items;
      Element(items[0].id, items[0].data) + Written(items[1..])
  }

  ghost predicate Writable(items: seq<Item>) {
    forall item :: item in items ==> ValidId(item.id) && |item.data| <= MAX_DATA
  }

  /** Elements written in a row, then one cut short anywhere (or nothing): exactly the complete ones are read. */
  lemma {:induction false} ItemsRead(items: seq<Item>, tail: seq<Byte>)
    requires Writable(items) && ReadElement(tail) == None
    ensures ReadItems(Written(items) + tail) == items
  {
    hide Element, ReadElement;
    if items == [] {
      assert Written(items) + tail == tail;
    } else {
      assert items[0] in items && forall item :: item in items[1..] ==> item in items;
      var rest := Written(items[1..]) + tail;
      assert Written(items) + tail == Element(items[0].id, items[0].data) + rest;
      ElementRead(items[0].id, items[0].data, rest);
      ItemsRead(items[1..], tail);
    }
  }

  lemma NothingRead()
    ensures ReadElement([]) == None
  {
  }
}
