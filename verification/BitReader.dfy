/** `Bits` of remote/src/matroska.rs: reading bits and Exp-Golomb codes out of a parameter set. */
module BitReader {
  import opened Bytes
  import opened Rbsp

  type Bit = x: int | 0 <= x <= 1

  /** What a read gives: its value and the bits after it. */
  datatype Parsed<+T> = Fail | Done(value: T, rest: seq<Bit>) {
    predicate IsFailure() { Fail? }
    function PropagateFailure<U>(): Parsed<U>
      requires Fail?
    {
      Fail
    }
    function Extract(): (T, seq<Bit>)
      requires Done?
    {
      (value, rest)
    }
  }

  const WORD: nat := 0x1_0000_0000

  // ---- Bits of bytes ------------------------------------------------------

  /** Bit `k` of a byte, counting from the most significant. */
  function BitAt(b: Byte, k: nat): Bit
    requires k < 8
  {
    (b as int) / [128, 64, 32, 16, 8, 4, 2, 1][k] % 2
  }

  function BitsOf(bytes: seq<Byte>): (bits: seq<Bit>)
    ensures |bits| == 8 * |bytes|
  {
    seq(8 * |bytes|, i requires 0 <= i < 8 * |bytes| => BitAt(bytes[i / 8], i % 8))
  }

  function ByteOf(bits: seq<Bit>): Byte
    requires |bits| == 8
  {
    Weighted(bits[0], bits[1], bits[2], bits[3], bits[4], bits[5], bits[6], bits[7]) as Byte
  }

  function Weighted(a: int, b: int, c: int, d: int, e: int, f: int, g: int, h: int): int {
    a * 128 + b * 64 + c * 32 + d * 16 + e * 8 + f * 4 + g * 2 + h
  }

  function Pack(bits: seq<Bit>): (bytes: seq<Byte>)
    requires |bits| % 8 == 0
    ensures |bytes| == |bits| / 8
  {
    seq(|bits| / 8, j requires 0 <= j < |bits| / 8 => ByteOf(bits[8 * j..8 * j + 8]))
  }

  lemma WeightedBits(a: Bit, b: Bit, c: Bit, d: Bit, e: Bit, f: Bit, g: Bit, h: Bit)
    ensures var n := Weighted(a, b, c, d, e, f, g, h);
            && n / 128 % 2 == a && n / 64 % 2 == b && n / 32 % 2 == c && n / 16 % 2 == d
            && n / 8 % 2 == e && n / 4 % 2 == f && n / 2 % 2 == g && n % 2 == h
  {
    var n := Weighted(a, b, c, d, e, f, g, h);
    var n2: int := a * 64 + b * 32 + c * 16 + d * 8 + e * 4 + f * 2 + g;
    var n4: int := a * 32 + b * 16 + c * 8 + d * 4 + e * 2 + f;
    var n8: int := a * 16 + b * 8 + c * 4 + d * 2 + e;
    var n16: int := a * 8 + b * 4 + c * 2 + d;
    assert n == 2 * n2 + h && n / 2 == n2;
    assert n2 == 2 * n4 + g && n / 4 == n4;
    assert n4 == 2 * n8 + f && n / 8 == n8;
    assert n8 == 2 * n16 + e && n / 16 == n16;
    assert n / 32 == a * 4 + b * 2 + c;
    assert n / 64 == a * 2 + b;
    assert n / 128 == a;
  }

  lemma BitOfByte(bits: seq<Bit>, k: nat)
    requires |bits| == 8 && k < 8
    ensures BitAt(ByteOf(bits), k) == bits[k]
  {
    hide Weighted;
    WeightedBits(bits[0], bits[1], bits[2], bits[3], bits[4], bits[5], bits[6], bits[7]);
  }

  lemma BitsOfPack(bits: seq<Bit>)
    requires |bits| % 8 == 0
    ensures BitsOf(Pack(bits)) == bits
  {
    hide BitAt, ByteOf;
    var unpacked := BitsOf(Pack(bits));
    forall i | 0 <= i < |bits| ensures unpacked[i] == bits[i] {
      var j := i / 8;
      BitOfByte(bits[8 * j..8 * j + 8], i % 8);
    }
  }

  function Value(bits: seq<Bit>): nat {
    if bits == [] then 0 else Value(bits[..|bits| - 1]) * 2 + bits[|bits| - 1]
  }

  // ---- Reading ------------------------------------------------------------

  /** The next `count` bits as a 32-bit number. */
  function Take(bits: seq<Bit>, count: nat): Parsed<nat> {
    if count > |bits| then Fail else Done(Value(bits[..count]) % WORD, bits[count..])
  }

  function UeFrom(bits: seq<Bit>, zeros: nat): Parsed<nat>
    decreases |bits|
  {
    if bits == [] then Fail
    else if bits[0] == 0 then if zeros + 1 < 32 then UeFrom(bits[1..], zeros + 1) else Fail
    else
      var (v, rest) :- Take(bits[1..], zeros);
      Done(Power2(zeros) - 1 + v, rest)
  }

  /** The next Exp-Golomb code. */
  function Ue(bits: seq<Bit>): Parsed<nat> { UeFrom(bits, 0) }

  class Bits {
    const bytes: seq<Byte>
    var position: nat

    ghost predicate Valid()
      reads this
    {
      position <= 8 * |bytes|
    }

    /** The bits not yet read. */
    ghost function Rest(): seq<Bit>
      requires Valid()
      reads this
    {
      BitsOf(bytes)[position..]
    }

    constructor (escaped: seq<Byte>)
      ensures Valid() && Rest() == BitsOf(Unescape(escaped))
    {
      var unescaped := RemoveEmulationPrevention(escaped);
      bytes := unescaped;
      position := 0;
    }

    method Read(count: nat) returns (r: Result<nat>)
      requires Valid()
      modifies this
      ensures Valid()
      ensures match Take(old(Rest()), count)
              case Fail => r == Err && position == old(position)
              case Done(v, rest) => r == Ok(v) && Rest() == rest
    {
      hide BitAt, Value;
      if position + count > |bytes| * 8 {
        return Err;
      }
      var value := 0;
      ghost var start, bits := position, BitsOf(bytes);
      ValueOfNothing();
      assert bits[start..start] == [];
      for i := 0 to count
        invariant position == start + i <= |bits|
        invariant value == Value(bits[start..position]) % WORD
      {
        var bit := BitAt(bytes[position / 8], position % 8);
        NextBit(bytes, start, position);
        value := (value * 2) % WORD + bit;
        position := position + 1;
      }
      assert bits[start..][..count] == bits[start..position] && bits[start..][count..] == bits[position..];
      return Ok(value);
    }

    method ReadUe() returns (r: Result<nat>)
      requires Valid()
      modifies this
      ensures Valid()
      ensures match Ue(old(Rest()))
              case Fail => r == Err
              case Done(v, rest) => r == Ok(v) && Rest() == rest && v <= WORD - 2
    {
      hide Take, BitsOf, Power2;
      var zeros := 0;
      ghost var start := Rest();
      while true
        invariant Valid() && zeros < 32 && UeFrom(Rest(), zeros) == Ue(start)
        decreases |Rest()|
      {
        OneBit(Rest());
        var bit :- Read(1);
        if bit != 0 {
          break;
        }
        zeros := zeros + 1;
        if zeros >= 32 {
          return Err;
        }
      }
      ghost var suffix := Rest();
      var v :- Read(zeros);
      SuffixFits(suffix, zeros);
      return Ok(ShiftedOne(zeros) - 1 + v);
    }
  }

  /** `1u32 << zeros`. */
  function ShiftedOne(zeros: nat): nat
    requires zeros < 32
  {
    Power2(zeros)
  }

  lemma Doubled(q: nat, r: nat, bit: Bit)
    requires r < WORD
    ensures (2 * (q * WORD + r) + bit) % WORD == (r * 2) % WORD + bit
  {
    if 2 * r < WORD {
      Wraps(2 * q, 2 * r + bit);
    } else {
      Wraps(2 * q + 1, 2 * r - WORD + bit);
      Wraps(1, 2 * r - WORD);
    }
  }

  lemma Wraps(k: nat, r: nat)
    requires r < WORD
    ensures (k * WORD + r) % WORD == r
  {
  }

  lemma ValueOfNothing()
    ensures Value([]) == 0
  {
  }

  lemma NextBit(bytes: seq<Byte>, start: nat, position: nat)
    requires start <= position < 8 * |bytes|
    ensures var bits := BitsOf(bytes);
            && bits[position] == BitAt(bytes[position / 8], position % 8)
            && Value(bits[start..position + 1]) % WORD
               == (Value(bits[start..position]) % WORD * 2) % WORD + bits[position]
  {
    hide BitAt;
    var bits := BitsOf(bytes);
    var read := bits[start..position + 1];
    assert read[..|read| - 1] == bits[start..position];
    var before := Value(bits[start..position]);
    Doubled(before / WORD, before % WORD, bits[position]);
  }

  lemma OneBit(bits: seq<Bit>)
    ensures Take(bits, 1) == if bits == [] then Fail else Done(bits[0], bits[1..])
  {
    if bits == [] {
      return;
    }
    assert bits[..1][..0] == [];
    assert Value(bits[..1]) == Value([]) * 2 + bits[0];
  }

  lemma {:induction false} ValueBound(bits: seq<Bit>)
    ensures Value(bits) < Power2(|bits|)
  {
    if bits != [] {
      ValueBound(bits[..|bits| - 1]);
    }
  }

  lemma {:induction false} Power2Grows(m: nat, n: nat)
    requires m <= n
    ensures Power2(m) <= Power2(n)
  {
    if m < n {
      Power2Grows(m, n - 1);
    }
  }

  lemma Power2At31()
    ensures Power2(31) == 0x8000_0000
  {
    assert Power2(8) == 256;
    assert Power2(16) == 0x1_0000;
    assert Power2(24) == 0x100_0000;
  }

  /** No 32-bit overflow: at most 31 leading zeros give a code of at most 2^32 - 2. */
  lemma SuffixFits(bits: seq<Bit>, zeros: nat)
    requires zeros < 32
    ensures Take(bits, zeros).Done? ==> Power2(zeros) - 1 + Take(bits, zeros).value <= WORD - 2
  {
    if zeros <= |bits| {
      ValueBound(bits[..zeros]);
      Power2Grows(zeros, 31);
      Power2At31();
    }
  }
}
