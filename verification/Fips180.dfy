/**
 SHA-256 as FIPS 180-4 defines it, stated on whole values: the functions of
 section 4.1.2, the padding of section 5.1.1, and the hash computation of
 section 6.2. Rotations use the built-in bit-vector rotation rather than shifts.
 */
module Fips180 {

  import Bytes

  type Word = bv32
  type Byte = bv8

  /** Addition modulo 2^32 (section 2.2.2). */
  function Plus(x: Word, y: Word): Word { x + y }

  function Sum4(a: Word, b: Word, c: Word, d: Word): Word { a + b + c + d }

  // ---- Section 4.1.2: functions -------------------------------------------

  function Ch(x: Word, y: Word, z: Word): Word { (x & y) ^ (!x & z) }

  function Maj(x: Word, y: Word, z: Word): Word { (x & y) ^ (x & z) ^ (y & z) }

  /** At any bit positions where `x` has ones it is `y`, and where `x` has zeros it is `z`. */
  lemma Chooses(x: Word, y: Word, z: Word, positions: Word)
    ensures x & positions == positions ==> Agree(Ch(x, y, z), y, positions)
    ensures x & positions == 0 ==> Agree(Ch(x, y, z), z, positions)
  {
  }

  /** The same bits at some positions. */
  predicate Agree(x: Word, y: Word, positions: Word) { x & positions == y & positions }

  lemma FirstTwoAgree(x: Word, y: Word, z: Word, positions: Word)
    requires Agree(x, y, positions)
    ensures Agree(Maj(x, y, z), x, positions)
  {
    assert Maj(x, y, z) & positions == ((x & positions) & (y & positions)) ^ ((x & positions) & z) ^ ((y & positions) & z);
  }

  lemma MajorityTurns(x: Word, y: Word, z: Word)
    ensures Maj(x, y, z) == Maj(y, z, x) == Maj(x, z, y)
  {
  }

  /** At any bit positions where two of the three agree it is what they have. */
  lemma Majority(x: Word, y: Word, z: Word, positions: Word)
    ensures Agree(x, y, positions) || Agree(x, z, positions) ==> Agree(Maj(x, y, z), x, positions)
    ensures Agree(y, z, positions) ==> Agree(Maj(x, y, z), y, positions)
  {
    hide Maj, Agree;
    MajorityTurns(x, y, z);
    if Agree(x, y, positions) {
      FirstTwoAgree(x, y, z, positions);
    }
    if Agree(x, z, positions) {
      FirstTwoAgree(x, z, y, positions);
    }
    if Agree(y, z, positions) {
      FirstTwoAgree(y, z, x, positions);
    }
  }

  function BigSigma0(x: Word): Word { x.RotateRight(2) ^ x.RotateRight(13) ^ x.RotateRight(22) }

  function BigSigma1(x: Word): Word { x.RotateRight(6) ^ x.RotateRight(11) ^ x.RotateRight(25) }

  function SmallSigma0(x: Word): Word { x.RotateRight(7) ^ x.RotateRight(18) ^ (x >> 3) }

  function SmallSigma1(x: Word): Word { x.RotateRight(17) ^ x.RotateRight(19) ^ (x >> 10) }

  // ---- Section 4.2.2: constants -------------------------------------------

  /** The constants, eight to a row. */
  function Row(i: nat): (row: seq<Word>)
    requires i < 8
    ensures |row| == 8
  {
    match i
    case 0 => [0x428a2f98, 0x71374491, 0xb5c0fbcf, 0xe9b5dba5, 0x3956c25b, 0x59f111f1, 0x923f82a4, 0xab1c5ed5]
    case 1 => [0xd807aa98, 0x12835b01, 0x243185be, 0x550c7dc3, 0x72be5d74, 0x80deb1fe, 0x9bdc06a7, 0xc19bf174]
    case 2 => [0xe49b69c1, 0xefbe4786, 0x0fc19dc6, 0x240ca1cc, 0x2de92c6f, 0x4a7484aa, 0x5cb0a9dc, 0x76f988da]
    case 3 => [0x983e5152, 0xa831c66d, 0xb00327c8, 0xbf597fc7, 0xc6e00bf3, 0xd5a79147, 0x06ca6351, 0x14292967]
    case 4 => [0x27b70a85, 0x2e1b2138, 0x4d2c6dfc, 0x53380d13, 0x650a7354, 0x766a0abb, 0x81c2c92e, 0x92722c85]
    case 5 => [0xa2bfe8a1, 0xa81a664b, 0xc24b8b70, 0xc76c51a3, 0xd192e819, 0xd6990624, 0xf40e3585, 0x106aa070]
    case 6 => [0x19a4c116, 0x1e376c08, 0x2748774c, 0x34b0bcb5, 0x391c0cb3, 0x4ed8aa4a, 0x5b9cca4f, 0x682e6ff3]
    case _ => [0x748f82ee, 0x78a5636f, 0x84c87814, 0x8cc70208, 0x90befffa, 0xa4506ceb, 0xbef9a3f7, 0xc67178f2]
  }

  function RoundConstant(t: nat): Word
    requires t < 64
  {
    Row(t / 8)[t % 8]
  }

  /** Eight words: the working variables, and the hash value between blocks. */
  datatype Vars = Vars(a: Word, b: Word, c: Word, d: Word, e: Word, f: Word, g: Word, h: Word)

  // ---- Section 5.3.3: initial hash value ----------------------------------

  const INITIAL := Vars(0x6a09e667, 0xbb67ae85, 0x3c6ef372, 0xa54ff53a,
                        0x510e527f, 0x9b05688c, 0x1f83d9ab, 0x5be0cd19)

  // ---- Section 5.1.1: padding ---------------------------------------------

  /** The zero bytes between the closing bit and the length field. */
  function ZeroCount(length: nat): (k: nat)
    ensures k < 64 && (length + 1 + k + 8) % 64 == 0
  {
    (119 - length % 64) % 64
  }

  function Zeros(n: nat): (s: seq<Byte>)
    ensures |s| == n && forall i :: 0 <= i < n ==> s[i] == 0
  {
    seq(n, _ => 0)
  }

  function LowByte(n: nat): Byte { (n % 256) as Byte }

  /** `n` modulo 2^(8 * width), most significant byte first. */
  function BigEndian(n: nat, width: nat): (s: seq<Byte>)
    ensures |s| == width
  {
    if width == 0 then [] else BigEndian(n / 256, width - 1) + [LowByte(n)]
  }

  function Padded(message: seq<Byte>): (p: seq<Byte>)
    ensures |p| % 64 == 0 && message <= p
  {
    message + [0x80] + Zeros(ZeroCount(|message|)) + BigEndian(8 * |message|, 8)
  }

  // ---- Section 6.2.2: one block -------------------------------------------

  /** Word `t` of a block, most significant byte first. */
  function BlockWord(block: seq<Byte>, t: nat): Word
    requires |block| == 64 && t < 16
  {
    (block[4 * t] as Word) * 0x100_0000 + (block[4 * t + 1] as Word) * 0x1_0000
    + (block[4 * t + 2] as Word) * 0x100 + (block[4 * t + 3] as Word)
  }

  function ScheduleWord(back2: Word, back7: Word, back15: Word, back16: Word): Word {
    Sum4(SmallSigma1(back2), back7, SmallSigma0(back15), back16)
  }

  /** The first `n` words of the message schedule. */
  function Schedule(block: seq<Byte>, n: nat): (w: seq<Word>)
    requires |block| == 64 && n <= 64
    ensures |w| == n
  {
    if n == 0 then []
    else
      var w := Schedule(block, n - 1);
      var t := n - 1;
      if t < 16 then w + [BlockWord(block, t)]
      else w + [ScheduleWord(w[t - 2], w[t - 7], w[t - 15], w[t - 16])]
  }

  function T1(v: Vars, k: Word, w: Word): Word {
    Plus(Sum4(v.h, BigSigma1(v.e), Ch(v.e, v.f, v.g), k), w)
  }

  function T2(v: Vars): Word { Plus(BigSigma0(v.a), Maj(v.a, v.b, v.c)) }

  function Round(v: Vars, k: Word, w: Word): Vars {
    Vars(Plus(T1(v, k, w), T2(v)), v.a, v.b, v.c, Plus(v.d, T1(v, k, w)), v.e, v.f, v.g)
  }

  function Rounds(v: Vars, w: seq<Word>, n: nat): Vars
    requires |w| == 64 && n <= 64
  {
    if n == 0 then v else Round(Rounds(v, w, n - 1), RoundConstant(n - 1), w[n - 1])
  }

  function Add(x: Vars, y: Vars): Vars {
    Vars(Plus(x.a, y.a), Plus(x.b, y.b), Plus(x.c, y.c), Plus(x.d, y.d),
         Plus(x.e, y.e), Plus(x.f, y.f), Plus(x.g, y.g), Plus(x.h, y.h))
  }

  function Compress(h: Vars, block: seq<Byte>): Vars
    requires |block| == 64
  {
    Add(h, Rounds(h, Schedule(block, 64), 64))
  }

  // ---- Section 6.2: the whole message -------------------------------------

  /** The hash value after the blocks of `data`. */
  function HashBlocks(h: Vars, data: seq<Byte>): Vars
    requires |data| % 64 == 0
  {
    if data == [] then h
    else Compress(HashBlocks(h, data[..|data| - 64]), data[|data| - 64..])
  }

  lemma HashNothing(h: Vars)
    ensures HashBlocks(h, []) == h
  {
  }

  lemma HashBlocksAppend(h: Vars, data: seq<Byte>, block: seq<Byte>)
    requires |data| % 64 == 0 && |block| == 64
    ensures HashBlocks(h, data + block) == Compress(HashBlocks(h, data), block)
  {
    hide Compress;
    var all := data + block;
    assert all[..|all| - 64] == data && all[|all| - 64..] == block;
  }

  function Digest(message: seq<Byte>): Vars { HashBlocks(INITIAL, Padded(message)) }

  /** Hashing blocks in two goes is hashing them in one. */
  lemma {:induction false} HashBlocksConcat(h: Vars, first: seq<Byte>, second: seq<Byte>)
    requires |first| % 64 == 0 && |second| % 64 == 0
    ensures HashBlocks(h, first + second) == HashBlocks(HashBlocks(h, first), second)
  {
    hide Compress;
    if second == [] {
      assert first + second == first;
    } else {
      var whole := first + second;
      assert whole[..|whole| - 64] == first + second[..|second| - 64];
      assert whole[|whole| - 64..] == second[|second| - 64..];
      HashBlocksConcat(h, first, second[..|second| - 64]);
    }
  }

  /** The zero count of section 5.1.1 is the smallest that fits. */
  lemma ZeroCountIsLeast(length: nat, k: nat)
    requires (length + 1 + k + 8) % 64 == 0
    ensures ZeroCount(length) <= k
  {
    var least := ZeroCount(length);
    assert (length + 9 + least) % 64 == 0 && (length + 9 + k) % 64 == 0;
  }

  // ---- The length field and the digest in hexadecimal ---------------------

  /** A 64-bit big-endian number is its two 32-bit halves in turn. */
  lemma BigEndianHalves(n: nat)
    ensures BigEndian(n, 8) == BigEndian(n / 0x1_0000_0000, 4) + BigEndian(n % 0x1_0000_0000, 4)
  {
    BigEndianSuffix(n / 0x1_0000_0000, n % 0x1_0000_0000);
  }

  lemma BigEndianSuffix(high: nat, low: nat)
    requires low < 0x1_0000_0000
    ensures BigEndian(high * 0x1_0000_0000 + low, 8) == BigEndian(high, 4) + BigEndian(low, 4)
  {
    hide BigEndian, LowByte;
    BigEndianUnrolled(high * 0x1_0000_0000 + low, 4);
    BigEndianUnrolled(low, 0);
    ShiftDown(high * 0x100_0000, low);
    ShiftDown(high * 0x1_0000, low / 256);
    ShiftDown(high * 0x100, low / 256 / 256);
    ShiftDown(high, low / 256 / 256 / 256);
    assert BigEndian(0, 0) == [];
  }

  lemma ShiftDown(high: nat, low: nat)
    ensures (high * 256 + low) / 256 == high + low / 256
    ensures LowByte(high * 256 + low) == LowByte(low)
  {
    assert (high * 256 + low) % 256 == low % 256;
  }

  lemma BigEndianUnrolled(n: nat, width: nat)
    ensures BigEndian(n, width + 4)
         == BigEndian(n / 256 / 256 / 256 / 256, width)
            + [LowByte(n / 256 / 256 / 256), LowByte(n / 256 / 256), LowByte(n / 256), LowByte(n)]
  {
    hide LowByte;
    assert BigEndian(n, width + 4) == BigEndian(n / 256, width + 3) + [LowByte(n)];
    assert BigEndian(n / 256, width + 3) == BigEndian(n / 256 / 256, width + 2) + [LowByte(n / 256)];
  }

  function HexDigit(n: nat): char
    requires n < 16
  {
    "0123456789abcdef"[n]
  }

  /** `n` modulo 16^width as `width` lowercase hexadecimal digits. */
  function FixedHex(n: nat, width: nat): (s: string)
    ensures |s| == width
  {
    if width == 0 then "" else FixedHex(n / 16, width - 1) + [HexDigit(n % 16)]
  }

  /** The digest as 64 lowercase hexadecimal digits. */
  function Hexadecimal(v: Vars): string {
    WordText(v.a) + WordText(v.b) + WordText(v.c) + WordText(v.d)
    + WordText(v.e) + WordText(v.f) + WordText(v.g) + WordText(v.h)
  }

  function WordText(w: Word): string { FixedHex(w as nat, 8) }

  function Power16(n: nat): nat { if n == 0 then 1 else 16 * Power16(n - 1) }

  /** The value of lowercase hexadecimal text, or none. */
  function HexValue(s: string): Bytes.Option<nat> {
    if s == "" then Bytes.Some(0)
    else
      var n, c := HexValue(s[..|s| - 1]), s[|s| - 1];
      if n.None? then Bytes.None
      else if '0' <= c <= '9' then Bytes.Some(16 * n.value + (c as int - '0' as int))
      else if 'a' <= c <= 'f' then Bytes.Some(16 * n.value + 10 + (c as int - 'a' as int))
      else Bytes.None
  }

  lemma DigitValue(n: nat)
    requires n < 16
    ensures var c := HexDigit(n);
            if n < 10 then '0' <= c <= '9' && c as int - '0' as int == n else 'a' <= c <= 'f' && 10 + (c as int - 'a' as int) == n
  {
    var digits := "0123456789abcdef";
    assert digits[0] == '0' && digits[1] == '1' && digits[2] == '2' && digits[3] == '3' && digits[4] == '4';
    assert digits[5] == '5' && digits[6] == '6' && digits[7] == '7' && digits[8] == '8' && digits[9] == '9';
    assert digits[10] == 'a' && digits[11] == 'b' && digits[12] == 'c' && digits[13] == 'd' && digits[14] == 'e';
    assert digits[15] == 'f';
  }

  /** The text of a number reads as that number. */
  lemma {:induction false} FixedHexRead(n: nat, width: nat)
    requires n < Power16(width)
    ensures HexValue(FixedHex(n, width)) == Bytes.Some(n)
  {
    hide HexDigit;
    if width > 0 {
      var text := FixedHex(n, width);
      assert text[..width - 1] == FixedHex(n / 16, width - 1) && text[width - 1] == HexDigit(n % 16);
      FixedHexRead(n / 16, width - 1);
      DigitValue(n % 16);
    }
  }

  /** Hexadecimal text tells different numbers apart. */
  lemma FixedHexInjective(m: nat, n: nat, width: nat)
    requires m < Power16(width) && n < Power16(width) && FixedHex(m, width) == FixedHex(n, width)
    ensures m == n
  {
    FixedHexRead(m, width);
    FixedHexRead(n, width);
  }
}
