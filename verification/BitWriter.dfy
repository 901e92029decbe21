/** Printing syntax elements as sections 7.2 and 9.1 of H.264 (and H.265) describe them, and reading them back. */
module BitWriter {
  import opened Bytes
  import opened BitReader

  /** u(n): `v` in `width` bits. */
  function Fixed(v: nat, width: nat): (bits: seq<Bit>)
    ensures |bits| == width
  {
    if width == 0 then [] else Fixed(v / 2, width - 1) + [v % 2]
  }

  function ZeroBits(n: nat): (bits: seq<Bit>)
    ensures |bits| == n
  {
    if n == 0 then [] else [0] + ZeroBits(n - 1)
  }

  /** The number of leading zero bits of the code for `v`. */
  function LeadingZeros(v: nat): (n: nat)
    ensures Power2(n) <= v + 1 < 2 * Power2(n)
  {
    if v == 0 then 0 else 1 + LeadingZeros((v - 1) / 2)
  }

  /** ue(v): leading zeros, a one, and as many bits again. */
  function Golomb(v: nat): seq<Bit> {
    var n := LeadingZeros(v);
    ZeroBits(n) + ([1] + Fixed(v + 1 - Power2(n), n))
  }

  lemma {:induction false} ValueOfFixed(v: nat, width: nat)
    requires v < Power2(width)
    ensures Value(Fixed(v, width)) == v
  {
    if width > 0 {
      var bits := Fixed(v, width);
      assert bits[..width - 1] == Fixed(v / 2, width - 1);
      ValueOfFixed(v / 2, width - 1);
    }
  }

  lemma Power2At32()
    ensures Power2(32) == WORD
  {
    Power2At31();
  }

  lemma TakeFixed(v: nat, width: nat, rest: seq<Bit>)
    requires width <= 32 && v < Power2(width)
    ensures Take(Fixed(v, width) + rest, width) == Done(v, rest)
  {
    hide Power2, Value, Fixed;
    var bits := Fixed(v, width) + rest;
    assert bits[..width] == Fixed(v, width) && bits[width..] == rest;
    ValueOfFixed(v, width);
    Power2Grows(width, 32);
    Power2At32();
    Wraps(0, v);
  }

  lemma {:induction false} UeAfterZeros(n: nat, zeros: nat, tail: seq<Bit>)
    requires zeros < 32
    ensures UeFrom(ZeroBits(n) + tail, zeros) == if zeros + n < 32 then UeFrom(tail, zeros + n) else Fail
    decreases n
  {
    var bits := ZeroBits(n) + tail;
    if n == 0 {
      assert bits == tail;
    } else {
      assert bits[0] == 0 && bits[1..] == ZeroBits(n - 1) + tail;
      if zeros + 1 < 32 {
        UeAfterZeros(n - 1, zeros + 1, tail);
      }
    }
  }

  /** Every Exp-Golomb code up to 2^32 - 2 is read back exactly, and no longer one is accepted. */
  lemma UeOfGolomb(v: nat, rest: seq<Bit>)
    ensures Ue(Golomb(v) + rest) == if v < WORD - 1 then Done(v, rest) else Fail
  {
    hide Power2;
    var n := LeadingZeros(v);
    var suffix := Fixed(v + 1 - Power2(n), n) + rest;
    assert Golomb(v) + rest == ZeroBits(n) + ([1] + suffix);
    UeAfterZeros(n, 0, [1] + suffix);
    Power2At32();
    if n < 32 {
      assert ([1] + suffix)[1..] == suffix;
      TakeFixed(v + 1 - Power2(n), n, rest);
      Power2Grows(n, 31);
      Power2At31();
    } else {
      Power2Grows(32, n);
    }
  }
}
