/** Bytes as numbers, and big-endian numbers as `to_be_bytes` writes them. */
module Bytes {

  newtype Byte = x: int | 0 <= x < 256

  datatype Result<+T> = Ok(value: T) | Err {
    predicate IsFailure() { Err? }
    function PropagateFailure<U>(): Result<U>
      requires Err?
    {
      Err
    }
    function Extract(): T
      requires Ok?
    {
      value
    }
  }

  datatype Option<+T> = None | Some(value: T)

  function Power2(n: nat): (p: nat)
    ensures p > 0
  {
    if n == 0 then 1 else 2 * Power2(n - 1)
  }

  function Power256(n: nat): (p: nat)
    ensures p > 0
  {
    if n == 0 then 1 else 256 * Power256(n - 1)
  }

  /** The low `width` bytes of `n`, most significant first. */
  function ToBytes(n: nat, width: nat): (s: seq<Byte>)
    ensures |s| == width
  {
    if width == 0 then [] else ToBytes(n / 256, width - 1) + [(n % 256) as Byte]
  }

  function FromBytes(s: seq<Byte>): nat {
    if s == [] then 0 else FromBytes(s[..|s| - 1]) * 256 + s[|s| - 1] as nat
  }

  lemma QuotientBelow(n: nat, p: nat)
    requires n < 256 * p
    ensures n / 256 < p
  {
  }

  lemma FromBytesAppend(s: seq<Byte>, b: Byte)
    ensures FromBytes(s + [b]) == FromBytes(s) * 256 + b as nat
  {
    assert (s + [b])[..|s|] == s;
  }

  lemma {:induction false} FromToBytes(n: nat, width: nat)
    requires n < Power256(width)
    ensures FromBytes(ToBytes(n, width)) == n
  {
    hide FromBytes;
    if width == 0 {
      NoBytes();
    } else {
      QuotientBelow(n, Power256(width - 1));
      FromToBytes(n / 256, width - 1);
      FromBytesAppend(ToBytes(n / 256, width - 1), (n % 256) as Byte);
    }
  }

  lemma NoBytes()
    ensures FromBytes([]) == 0
  {
  }

  function Zeros(n: nat): (s: seq<Byte>)
    ensures |s| == n && forall i :: 0 <= i < n ==> s[i] == 0
  {
    seq(n, _ => 0)
  }

  /** Drops leading zero bytes, but never the last byte. */
  function Shortest(s: seq<Byte>): (r: seq<Byte>)
    requires s != []
    ensures 0 < |r| <= |s|
  {
    if |s| > 1 && s[0] == 0 then Shortest(s[1..]) else s
  }

  lemma {:induction false} FromShortest(s: seq<Byte>)
    requires s != []
    ensures FromBytes(Shortest(s)) == FromBytes(s)
  {
    if |s| > 1 && s[0] == 0 {
      FromZeroLed(s);
      FromShortest(s[1..]);
    }
  }

  lemma {:induction false} FromZeroLed(s: seq<Byte>)
    requires s != [] && s[0] == 0
    ensures FromBytes(s) == FromBytes(s[1..])
  {
    if |s| > 1 {
      assert s[1..][..|s| - 2] == s[..|s| - 1][1..];
      FromZeroLed(s[..|s| - 1]);
    }
  }

  lemma Assoc<T>(a: seq<T>, b: seq<T>, c: seq<T>)
    ensures (a + b) + c == a + (b + c)
  {
  }
}
