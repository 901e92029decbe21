/** `Sha256` of dashboard/lib/sha256.ts: SHA-256 fed a piece at a time. */
module Sha256 {
  import opened Fips180

  // The expressions of `compress`, with shifts and ors in place of the
  // standard's rotations and big-endian words.

  function Joined(b0: Byte, b1: Byte, b2: Byte, b3: Byte): Word {
    ((b0 as Word) << 24) | ((b1 as Word) << 16) | ((b2 as Word) << 8) | (b3 as Word)
  }

  function S0(x: Word): Word { ((x >> 7) | (x << 25)) ^ ((x >> 18) | (x << 14)) ^ (x >> 3) }

  function S1(y: Word): Word { ((y >> 17) | (y << 15)) ^ ((y >> 19) | (y << 13)) ^ (y >> 10) }

  function E1(e: Word): Word { ((e >> 6) | (e << 26)) ^ ((e >> 11) | (e << 21)) ^ ((e >> 25) | (e << 7)) }

  function A0(a: Word): Word { ((a >> 2) | (a << 30)) ^ ((a >> 13) | (a << 19)) ^ ((a >> 22) | (a << 10)) }

  function Extended(w16: Word, x: Word, w7: Word, y: Word): Word { Sum4(w16, S0(x), w7, S1(y)) }

  function First(e: Word, f: Word, g: Word, k: Word, constant: Word, w: Word): Word {
    Plus(Sum4(k, E1(e), Ch(e, f, g), constant), w)
  }

  function Second(a: Word, b: Word, c: Word): Word { Plus(A0(a), Maj(a, b, c)) }

  lemma ShiftsAreRotations(x: Word)
    ensures S0(x) == SmallSigma0(x) && S1(x) == SmallSigma1(x)
    ensures E1(x) == BigSigma1(x) && A0(x) == BigSigma0(x)
  {
    assert S0(x) == SmallSigma0(x);
    assert S1(x) == SmallSigma1(x);
    assert E1(x) == BigSigma1(x);
    assert A0(x) == BigSigma0(x);
  }

  lemma JoinedIsBlockWord(block: seq<Byte>, t: nat)
    requires |block| == 64 && t < 16
    ensures Joined(block[4 * t], block[4 * t + 1], block[4 * t + 2], block[4 * t + 3]) == BlockWord(block, t)
  {
    JoinedIsBigEndian(block[4 * t], block[4 * t + 1], block[4 * t + 2], block[4 * t + 3]);
  }

  lemma JoinedIsBigEndian(b0: Byte, b1: Byte, b2: Byte, b3: Byte)
    ensures Joined(b0, b1, b2, b3)
         == (b0 as Word) * 0x100_0000 + (b1 as Word) * 0x1_0000 + (b2 as Word) * 0x100 + (b3 as Word)
  {
  }

  lemma AdditionReverses(a: Word, b: Word, c: Word, d: Word)
    ensures a + b + c + d == d + c + b + a
  {
  }

  lemma ReversedSum(a: Word, b: Word, c: Word, d: Word)
    ensures Sum4(a, b, c, d) == Sum4(d, c, b, a)
  {
    AdditionReverses(a, b, c, d);
  }

  lemma ExtendedIsScheduleWord(w16: Word, x: Word, w7: Word, y: Word)
    ensures Extended(w16, x, w7, y) == ScheduleWord(y, w7, x, w16)
  {
    hide S0, S1, SmallSigma0, SmallSigma1, Sum4;
    ShiftsAreRotations(x);
    ShiftsAreRotations(y);
    ReversedSum(w16, S0(x), w7, S1(y));
  }

  lemma StepIsRound(v: Vars, constant: Word, w: Word)
    ensures First(v.e, v.f, v.g, v.h, constant, w) == T1(v, constant, w)
    ensures Second(v.a, v.b, v.c) == T2(v)
  {
    hide E1, A0, BigSigma0, BigSigma1, Ch, Maj, Plus, Sum4;
    ShiftsAreRotations(v.e);
    ShiftsAreRotations(v.a);
  }

  /** The eight words of the `state` array. */
  function VarsOf(state: seq<Word>): (v: Vars)
    requires |state| == 8
  {
    Vars(state[0], state[1], state[2], state[3], state[4], state[5], state[6], state[7])
  }

  /** The first loop over a block: its sixteen words. */
  method LoadWords(w: array<Word>, data: array<Byte>, offset: nat)
    requires w.Length == 64 && offset + 64 <= data.Length
    modifies w
    ensures w[..16] == Schedule(data[offset..offset + 64], 16)
  {
    hide Joined, BlockWord;
    ghost var block := data[offset..offset + 64];
    for i := 0 to 16
      invariant w[..i] == Schedule(block, i)
    {
      var at := offset + i * 4;
      w[i] := Joined(data[at], data[at + 1], data[at + 2], data[at + 3]);
      JoinedIsBlockWord(block, i);
      assert w[..i + 1] == w[..i] + [BlockWord(block, i)];
    }
  }

  /** The second loop: the rest of the message schedule. */
  method ExtendWords(w: array<Word>, ghost block: seq<Byte>)
    requires w.Length == 64 && |block| == 64
    requires w[..16] == Schedule(block, 16)
    modifies w
    ensures w[..] == Schedule(block, 64)
  {
    hide Extended, ScheduleWord, BlockWord;
    for i := 16 to 64
      invariant w[..i] == Schedule(block, i)
    {
      ghost var before := w[..i];
      w[i] := Extended(w[i - 16], w[i - 15], w[i - 7], w[i - 2]);
      ExtendedIsScheduleWord(before[i - 16], before[i - 15], before[i - 7], before[i - 2]);
      assert w[..i + 1] == before + [ScheduleWord(before[i - 2], before[i - 7], before[i - 15], before[i - 16])];
    }
    assert w[..64] == w[..];
  }

  /** The third loop: the sixty-four rounds, with the variables in locals. */
  method RunRounds(w: array<Word>, start: Vars) returns (v: Vars)
    requires w.Length == 64
    ensures v == Rounds(start, w[..], 64)
  {
    hide First, Second, T1, T2, Plus, RoundConstant;
    var a, b, c, d := start.a, start.b, start.c, start.d;
    var e, f, g, k := start.e, start.f, start.g, start.h;
    for i := 0 to 64
      invariant Vars(a, b, c, d, e, f, g, k) == Rounds(start, w[..], i)
    {
      StepIsRound(Vars(a, b, c, d, e, f, g, k), RoundConstant(i), w[i]);
      var t1 := First(e, f, g, k, RoundConstant(i), w[i]);
      var t2 := Second(a, b, c);
      k := g;
      g := f;
      f := e;
      e := Plus(d, t1);
      d := c;
      c := b;
      b := a;
      a := Plus(t1, t2);
    }
    v := Vars(a, b, c, d, e, f, g, k);
  }

  class Hasher {
    const state: array<Word>
    const words: array<Word>
    const block: array<Byte>
    var buffered: nat
    var length: nat
    /** Everything fed so far. */
    ghost var fed: seq<Byte>

    ghost predicate Shaped() {
      state.Length == 8 && words.Length == 64 && block.Length == 64 && state != words
    }

    /** The state is the hash of the blocks of `hashed`. */
    ghost predicate Hashed(hashed: seq<Byte>)
      reads state
    {
      Shaped() && |hashed| % 64 == 0 && VarsOf(state[..]) == HashBlocks(INITIAL, hashed)
    }

    ghost predicate Valid()
      reads this, state, block
    {
      && Shaped()
      && length == |fed|
      && buffered == |fed| % 64
      && block[..buffered] == fed[|fed| - buffered..]
      && Hashed(fed[..|fed| - buffered])
    }

    constructor ()
      ensures Valid() && fed == []
      ensures fresh(state) && fresh(words) && fresh(block)
    {
      state := new Word[8][0x6a09e667, 0xbb67ae85, 0x3c6ef372, 0xa54ff53a,
                           0x510e527f, 0x9b05688c, 0x1f83d9ab, 0x5be0cd19];
      words := new Word[64](_ => 0);
      block := new Byte[64](_ => 0);
      buffered := 0;
      length := 0;
      fed := [];
    }

    /** One turn of the outer loop of `compress`. */
    method CompressBlock(data: array<Byte>, offset: nat, h: Vars) returns (next: Vars)
      requires Shaped() && offset + 64 <= data.Length
      modifies words
      ensures next == Fips180.Compress(h, data[offset..offset + 64])
    {
      hide Add, Rounds, Schedule;
      LoadWords(words, data, offset);
      ExtendWords(words, data[offset..offset + 64]);
      var v := RunRounds(words, h);
      next := Add(h, v);
    }

    method Compress(data: array<Byte>, start: nat, end: nat)
      requires Shaped()
      requires start <= end <= data.Length && (end - start) % 64 == 0
      modifies state, words
      ensures VarsOf(state[..]) == HashBlocks(VarsOf(old(state[..])), data[start..end])
    {
      hide Fips180.Compress, HashBlocks, VarsOf;
      var h0 := VarsOf(state[..]);
      var h := h0;
      assert data[start..start] == [];
      HashNothing(h0);
      var offset := start;
      while offset < end
        invariant start <= offset <= end && (offset - start) % 64 == 0
        invariant h == HashBlocks(h0, data[start..offset])
        modifies words
      {
        HashBlocksAppend(h0, data[start..offset], data[offset..offset + 64]);
        assert data[start..offset + 64] == data[start..offset] + data[offset..offset + 64];
        h := CompressBlock(data, offset, h);
        offset := offset + 64;
      }
      StoreState(h);
    }

    /** The last statements of `compress`. */
    method StoreState(h: Vars)
      requires Shaped()
      modifies state
      ensures VarsOf(state[..]) == h
    {
      state[0], state[1], state[2], state[3] := h.a, h.b, h.c, h.d;
      state[4], state[5], state[6], state[7] := h.e, h.f, h.g, h.h;
    }

    /** Appends `data[from..to]` to the buffered bytes. */
    method Buffer(data: array<Byte>, from: nat, to: nat)
      requires Shaped() && data != block
      requires from <= to <= data.Length && buffered + (to - from) <= 64
      modifies block, this`buffered
      ensures buffered == old(buffered) + (to - from)
      ensures block[..buffered] == old(block[..buffered]) + data[from..to]
    {
      forall i | 0 <= i < to - from {
        block[buffered + i] := data[from + i];
      }
      buffered := buffered + (to - from);
    }

    /** Hashes more blocks on top of `hashed`. */
    method Absorb(data: array<Byte>, start: nat, end: nat, ghost hashed: seq<Byte>)
      requires Hashed(hashed)
      requires start <= end <= data.Length && (end - start) % 64 == 0
      modifies state, words
      ensures Hashed(hashed + data[start..end])
    {
      hide HashBlocks;
      Compress(data, start, end);
      HashBlocksConcat(INITIAL, hashed, data[start..end]);
    }

    /** The second half of `update`: the whole blocks of `data` from `offset`, then what is left over. */
    method TakeBlocks(data: array<Byte>, offset: nat, ghost hashed: seq<Byte>)
      requires Hashed(hashed) && data != block && offset <= data.Length
      requires buffered == 0 && fed == hashed + data[offset..] && length == |fed|
      modifies state, words, block, this`buffered
      ensures Valid()
    {
      hide HashBlocks, VarsOf;
      var whole := offset + (data.Length - offset) / 64 * 64;
      ghost var blocks, rest := data[offset..whole], data[whole..data.Length];
      assert data[offset..] == blocks + rest;
      Regroup(hashed, blocks, rest);
      if whole > offset {
        Absorb(data, offset, whole, hashed);
      } else {
        assert hashed + blocks == hashed;
      }
      if whole < data.Length {
        Buffer(data, whole, data.Length);
      }
    }

    /** The first half of `update`: fills the block left unfinished, and hashes it once it is full. */
    method TopUp(data: array<Byte>, ghost hashed: seq<Byte>, ghost rest: seq<Byte>) returns (taken: nat, full: bool)
      requires Hashed(hashed) && data != block
      requires |rest| == buffered < 64 && block[..buffered] == rest
      modifies state, words, block, this`buffered
      ensures taken <= data.Length
      ensures full ==> buffered == 0 && Hashed(hashed + (rest + data[..taken]))
      ensures !full ==> taken == data.Length && buffered < 64 && Hashed(hashed) && block[..buffered] == rest + data[..]
    {
      hide HashBlocks, VarsOf;
      taken := if 64 - buffered < data.Length then 64 - buffered else data.Length;
      Buffer(data, 0, taken);
      assert data[0..taken] == data[..taken];
      full := buffered == 64;
      if !full {
        assert data[..taken] == data[..];
        return;
      }
      Absorb(block, 0, 64, hashed);
      assert block[0..64] == block[..64];
      buffered := 0;
    }

    /** Feeds `data`. Nothing but the bytes fed so far decides what follows. */
    method Update(data: array<Byte>)
      requires Valid() && data != block
      modifies this, state, words, block
      ensures Valid() && fed == old(fed) + data[..]
    {
      hide HashBlocks, VarsOf;
      ghost var hashed, rest := fed[..|fed| - buffered], fed[|fed| - buffered..];
      var offset := 0;
      assert fed == hashed + rest;
      length := length + data.Length;
      fed := fed + data[..];
      if buffered > 0 {
        var taken, full := TopUp(data, hashed, rest);
        if !full {
          Reassociate(hashed, rest, data[..]);
          Regroup(hashed, [], rest + data[..]);
          return;
        }
        offset := taken;
      }
      TakeFrom(hashed, rest, data[..], offset);
      TakeBlocks(data, offset, if rest == [] then hashed else hashed + (rest + data[..offset]));
    }

    /** The first statements of `hex`: the padding, with the length in two halves. */
    method PaddingTail() returns (tail: array<Byte>)
      requires Valid()
      ensures fresh(tail) && fed + tail[..] == Padded(fed)
    {
      hide Hashed, BigEndian, Zeros, ZeroCount;
      tail := BuildTail(buffered, length * 8);
      ZeroCountFor(|fed|);
      Join4(fed, [0x80], Zeros(tail.Length - 9), BigEndian(length * 8, 8));
    }

    /** Feeds the padding, then writes the state out as text; `length` keeps counting the message alone. */
    method Hex() returns (text: string)
      requires Valid() && |fed| < 0x20_0000_0000_0000
      modifies this, state, words, block
      ensures text == Hexadecimal(Digest(old(fed)))
    {
      hide HashBlocks, Padded, VarsOf, StateHex, Hexadecimal;
      ghost var message := fed;
      var tail := PaddingTail();
      var saved := length;
      Update(tail);
      length := saved;
      assert fed == Padded(message) && fed[..|fed| - buffered] == fed;
      text := StateHex(state[..], 8);
      StateHexIsHexadecimal(state[..]);
    }
  }

  function Concat(pieces: seq<seq<Byte>>): seq<Byte> {
    if pieces == [] then [] else Concat(pieces[..|pieces| - 1]) + pieces[|pieces| - 1]
  }

  function Length(pieces: seq<seq<Byte>>): nat { |Concat(pieces)| }

  /** However a message is cut, hashing the pieces in turn gives the message's digest. */
  method HashPieces(pieces: seq<seq<Byte>>) returns (text: string)
    requires Length(pieces) < 0x20_0000_0000_0000
    ensures text == Hexadecimal(Digest(Concat(pieces)))
  {
    hide Digest, Hexadecimal, Hasher.Valid;
    var hash := new Hasher();
    for n := 0 to |pieces|
      invariant hash.Valid() && hash.fed == Concat(pieces[..n])
      invariant fresh(hash) && fresh(hash.state) && fresh(hash.words) && fresh(hash.block)
    {
      var piece := pieces[n];
      var data := new Byte[|piece|](i requires 0 <= i < |piece| => piece[i]);
      assert data[..] == piece;
      hash.Update(data);
      assert pieces[..n + 1][..n] == pieces[..n];
    }
    assert pieces[..|pieces|] == pieces;
    text := hash.Hex();
  }

  const SLICE_BYTES: nat := 4 * 1024 * 1024

  /** `sha256OfBlob`: the file a slice at a time. */
  method OfBlob(file: seq<Byte>) returns (text: string)
    requires |file| < 0x20_0000_0000_0000
    ensures text == Hexadecimal(Digest(file))
  {
    hide Digest, Hexadecimal, Hasher.Valid;
    var hash := new Hasher();
    var start := 0;
    while start < |file|
      invariant hash.Valid() && hash.fed == file[..if start < |file| then start else |file|]
      invariant fresh(hash) && fresh(hash.state) && fresh(hash.words) && fresh(hash.block)
    {
      var end := if start + SLICE_BYTES < |file| then start + SLICE_BYTES else |file|;
      var piece := new Byte[end - start](i requires 0 <= i < end - start => file[start + i]);
      assert file[..end] == file[..start] + piece[..];
      hash.Update(piece);
      start := start + SLICE_BYTES;
    }
    assert file[..|file|] == file;
    text := hash.Hex();
  }

  method BuildTail(buffered: nat, bits: nat) returns (tail: array<Byte>)
    requires buffered < 64
    ensures fresh(tail) && tail.Length == if buffered < 56 then 64 - buffered else 128 - buffered
    ensures tail[..] == [0x80] + Zeros(tail.Length - 9) + BigEndian(bits, 8)
  {
    hide BigEndian, Zeros;
    tail := new Byte[if buffered < 56 then 64 - buffered else 128 - buffered](_ => 0);
    tail[0] := 0x80;
    ghost var blank := tail[..];
    SetUint32(tail, tail.Length - 8, bits / 0x1_0000_0000);
    SetUint32(tail, tail.Length - 4, bits % 0x1_0000_0000);
    BigEndianHalves(bits);
    AssembleTail(tail.Length - 9, blank, BigEndian(bits / 0x1_0000_0000, 4), BigEndian(bits % 0x1_0000_0000, 4));
  }

  /** `DataView.setUint32`: four bytes, most significant first. */
  method SetUint32(view: array<Byte>, at: nat, value: nat)
    requires at + 4 <= view.Length
    modifies view
    ensures view[..] == old(view[..at]) + BigEndian(value, 4) + old(view[at + 4..])
  {
    hide LowByte;
    view[at] := LowByte(value / 256 / 256 / 256);
    view[at + 1] := LowByte(value / 256 / 256);
    view[at + 2] := LowByte(value / 256);
    view[at + 3] := LowByte(value);
    BigEndianUnrolled(value, 0);
  }

  // ---- Hexadecimal text ---------------------------------------------------

  /** `Number.prototype.toString(16)`. */
  function ToString16(n: nat): (s: string)
    ensures |s| > 0
  {
    if n < 16 then [HexDigit(n)] else ToString16(n / 16) + [HexDigit(n % 16)]
  }

  function PadStart(s: string, width: nat): string {
    if |s| >= width then s else seq(width - |s|, _ => '0') + s
  }

  function WordHex(w: Word): string { PadStart(ToString16(w as nat), 8) }

  /** The first `n` words, joined. */
  function StateHex(state: seq<Word>, n: nat): string
    requires n <= |state|
  {
    if n == 0 then "" else StateHex(state, n - 1) + WordHex(state[n - 1])
  }

  /** Padding the shortest form gives the fixed-width form. */
  lemma {:induction false} PaddedIsFixed(n: nat, width: nat)
    requires 0 < width && n < Power16(width)
    ensures |ToString16(n)| <= width && PadStart(ToString16(n), width) == FixedHex(n, width)
  {
    if n < 16 {
      FixedZero(width - 1);
    } else {
      PaddedIsFixed(n / 16, width - 1);
      assert |ToString16(n)| == |ToString16(n / 16)| + 1;
    }
  }

  lemma {:induction false} FixedZero(width: nat)
    ensures FixedHex(0, width) == seq(width, _ => '0')
  {
    if width > 0 {
      FixedZero(width - 1);
    }
  }

  lemma WordHexIsText(w: Word)
    ensures WordHex(w) == WordText(w)
  {
    assert Power16(8) == 0x1_0000_0000;
    PaddedIsFixed(w as nat, 8);
  }

  lemma StateHexIsHexadecimal(state: seq<Word>)
    requires |state| == 8
    ensures StateHex(state, 8) == Hexadecimal(VarsOf(state))
  {
    hide WordHex, WordText;
    forall i | 0 <= i < 8 ensures WordHex(state[i]) == WordText(state[i]) {
      WordHexIsText(state[i]);
    }
    assert StateHex(state, 1) == WordText(state[0]);
    assert StateHex(state, 2) == StateHex(state, 1) + WordText(state[1]);
    assert StateHex(state, 3) == StateHex(state, 2) + WordText(state[2]);
    assert StateHex(state, 4) == StateHex(state, 3) + WordText(state[3]);
    assert StateHex(state, 5) == StateHex(state, 4) + WordText(state[4]);
    assert StateHex(state, 6) == StateHex(state, 5) + WordText(state[5]);
    assert StateHex(state, 7) == StateHex(state, 6) + WordText(state[6]);
  }

  lemma Reassociate(hashed: seq<Byte>, rest: seq<Byte>, data: seq<Byte>)
    ensures (hashed + rest) + data == hashed + ([] + (rest + data)) && hashed + [] == hashed
  {
  }

  lemma TakeFrom(hashed: seq<Byte>, rest: seq<Byte>, data: seq<Byte>, offset: nat)
    requires offset <= |data| && (rest == [] ==> offset == 0)
    ensures (hashed + rest) + data
         == (if rest == [] then hashed else hashed + (rest + data[..offset])) + data[offset..]
  {
    assert data == data[..offset] + data[offset..];
  }

  lemma ZeroCountFor(length: nat)
    ensures ZeroCount(length) == (if length % 64 < 56 then 64 - length % 64 else 128 - length % 64) - 9
  {
  }

  lemma Join4(a: seq<Byte>, b: seq<Byte>, c: seq<Byte>, d: seq<Byte>)
    ensures a + (b + c + d) == a + b + c + d
  {
  }

  lemma AssembleTail(zeros: nat, t0: seq<Byte>, high: seq<Byte>, low: seq<Byte>)
    requires |t0| == zeros + 9 && t0[0] == 0x80 && forall i :: 1 <= i < |t0| ==> t0[i] == 0
    requires |high| == 4 && |low| == 4
    ensures var t1 := t0[..zeros + 1] + high + t0[zeros + 5..];
            t1[..zeros + 5] + low + t1[zeros + 9..] == [0x80] + Zeros(zeros) + (high + low)
  {
  }

  /** Whole blocks and a shorter rest can be told apart again. */
  lemma Regroup(hashed: seq<Byte>, blocks: seq<Byte>, rest: seq<Byte>)
    requires |hashed| % 64 == 0 && |blocks| % 64 == 0 && |rest| < 64
    ensures var all := hashed + (blocks + rest);
            && |all| % 64 == |rest|
            && all[..|all| - |rest|] == hashed + blocks && all[|all| - |rest|..] == rest
  {
  }
}
