/** The parts of the postcard wire format the clipboard uses: LEB128 numbers, byte strings and UTF-8 text. */
module Postcard {
  import opened Bytes

  /** A number, seven bits a byte, least significant first. */
  function Varint(n: nat): (s: seq<Byte>)
    ensures s != []
  {
    if n < 128 then [n as Byte] else [(n % 128 + 128) as Byte] + Varint(n / 128)
  }

  /**
   Reads a number of at most `max` bytes, the last of them at most `lastMax`,
   with `i` bytes read so far.
   */
  function ReadVarint(s: seq<Byte>, i: nat, max: nat, lastMax: nat): (r: Option<(nat, seq<Byte>)>)
    ensures r.Some? ==> |r.value.1| < |s| && r.value.1 == s[|s| - |r.value.1|..]
    decreases |s|
  {
    if i >= max || s == [] then None
    else if s[0] < 128 then
      if i == max - 1 && s[0] as nat > lastMax then None else Some((s[0] as nat, s[1..]))
    else
      match ReadVarint(s[1..], i + 1, max, lastMax)
      case None => None
      case Some((v, rest)) => Some((s[0] as nat - 128 + 128 * v, rest))
  }

  /** `u32`: five bytes at most; `usize`: ten. */
  function ReadU32(s: seq<Byte>): Option<(nat, seq<Byte>)> { ReadVarint(s, 0, 5, 15) }

  function ReadUsize(s: seq<Byte>): Option<(nat, seq<Byte>)> { ReadVarint(s, 0, 10, 1) }

  function Power128(n: nat): (p: nat)
    ensures p > 0
  {
    if n == 0 then 1 else 128 * Power128(n - 1)
  }

  /** Every number the reader has room for is read back, whatever follows it. */
  lemma {:induction false} VarintRead(n: nat, i: nat, max: nat, lastMax: nat, rest: seq<Byte>)
    requires i < max && lastMax < 128 && n < (lastMax + 1) * Power128(max - 1 - i)
    ensures ReadVarint(Varint(n) + rest, i, max, lastMax) == Some((n, rest))
    decreases max - i
  {
    var s := Varint(n) + rest;
    if n < 128 {
      assert s[1..] == rest;
      if i == max - 1 {
        assert Power128(0) == 1;
      }
    } else {
      assert i < max - 1 by {
        assert Power128(0) == 1;
      }
      var p := Power128(max - 2 - i);
      assert (lastMax + 1) * (128 * p) == 128 * ((lastMax + 1) * p);
      assert s[1..] == Varint(n / 128) + rest;
      VarintRead(n / 128, i + 1, max, lastMax, rest);
    }
  }

  lemma U32Read(n: nat, rest: seq<Byte>)
    requires n < 0x1_0000_0000
    ensures ReadU32(Varint(n) + rest) == Some((n, rest))
  {
    Powers128();
    VarintRead(n, 0, 5, 15, rest);
  }

  lemma UsizeRead(n: nat, rest: seq<Byte>)
    requires n < 0x1_0000_0000_0000_0000
    ensures ReadUsize(Varint(n) + rest) == Some((n, rest))
  {
    Powers128();
    VarintRead(n, 0, 10, 1, rest);
  }

  lemma Powers128()
    ensures Power128(4) == 0x1000_0000 && Power128(9) == 0x8000_0000_0000_0000
  {
    assert Power128(2) == 0x4000;
    assert Power128(4) == 0x1000_0000;
    assert Power128(6) == 0x400_0000_0000;
    assert Power128(8) == 0x100_0000_0000_0000;
  }

  /** The numbers whose bytes the protocol's own test spells out. */
  lemma VarintExamples()
    ensures Varint(1280) == [0x80, 0x0a] && Varint(720) == [0xd0, 0x05] && Varint(43) == [43]
  {
    assert Varint(10) == [0x0a] && Varint(5) == [0x05];
  }

  /** Numbers below 2^32 take at most five bytes. */
  lemma {:induction false} VarintLength(n: nat, k: nat)
    requires 1 <= k && n < Power128(k)
    ensures |Varint(n)| <= k
  {
    if n >= 128 {
      assert k > 1 by {
        assert Power128(1) == 128;
      }
      VarintLength(n / 128, k - 1);
    }
  }

  // ---- Byte strings and text ----------------------------------------------

  /** A byte string after its length. */
  function Prefixed(data: seq<Byte>): seq<Byte> { Varint(|data|) + data }

  function ReadPrefixed(s: seq<Byte>): (r: Option<(seq<Byte>, seq<Byte>)>)
    ensures r.Some? ==> |r.value.0| + |r.value.1| <= |s|
  {
    match ReadUsize(s)
    case None => None
    case Some((n, rest)) => if n > |rest| then None else Some((rest[..n], rest[n..]))
  }

  lemma PrefixedRead(data: seq<Byte>, rest: seq<Byte>)
    requires |data| < 0x1_0000_0000_0000_0000
    ensures ReadPrefixed(Prefixed(data) + rest) == Some((data, rest))
  {
    hide ReadUsize, Varint;
    assert Prefixed(data) + rest == Varint(|data|) + (data + rest);
    UsizeRead(|data|, data + rest);
    assert (data + rest)[..|data|] == data && (data + rest)[|data|..] == rest;
  }

  predicate Tail(b: Byte) { 0x80 <= b <= 0xbf }

  /** The length of the well-formed UTF-8 character at the start of `s`; zero when there is none. */
  function CharWidth(s: seq<Byte>): (n: nat)
    ensures n <= |s|
  {
    if s == [] then 0
    else if s[0] < 0x80 then 1
    else if |s| >= 2 && 0xc2 <= s[0] <= 0xdf && Tail(s[1]) then 2
    else if |s| >= 3 && 0xe0 <= s[0] <= 0xef && Tail(s[1]) && Tail(s[2])
            && (s[0] == 0xe0 ==> s[1] >= 0xa0) && (s[0] == 0xed ==> s[1] <= 0x9f) then 3
    else if |s| >= 4 && 0xf0 <= s[0] <= 0xf4 && Tail(s[1]) && Tail(s[2]) && Tail(s[3])
            && (s[0] == 0xf0 ==> s[1] >= 0x90) && (s[0] == 0xf4 ==> s[1] <= 0x8f) then 4
    else 0
  }

  /** Well-formed UTF-8: what a Rust `String` always holds, and what text is checked for when read. */
  predicate IsUtf8(s: seq<Byte>)
    decreases |s|
  {
    s == [] || (CharWidth(s) > 0 && IsUtf8(s[CharWidth(s)..]))
  }

  function ReadText(s: seq<Byte>): (r: Option<(seq<Byte>, seq<Byte>)>)
    ensures r.Some? ==> IsUtf8(r.value.0)
  {
    match ReadPrefixed(s)
    case None => None
    case Some((text, rest)) => if IsUtf8(text) then Some((text, rest)) else None
  }
}
