/** Basic value types shared by every module: bytes, 64-bit offsets, byte
    strings, and the usual Option/Result wrappers. */
module Primitives {

  type byte = b: int | 0 <= b < 256

  const TWO_64: nat := 0x1_0000_0000_0000_0000

  /** An unsigned 64-bit integer: stream offsets, lengths and the trailer magic. */
  type u64 = x: int | 0 <= x < 0x1_0000_0000_0000_0000

  /** A byte string whose length can be written as a u64 length prefix. */
  type Str = s: seq<byte> | |s| < 0x1_0000_0000_0000_0000

  datatype Option<+T> = None | Some(value: T)

  datatype Result<+T, +E> = Ok(value: T) | Err(error: E)
}

/** Little-endian integers, as the byteorder crate's `LittleEndian::write_u64`
    and `LittleEndian::read_u64` produce and consume them. */
module LittleEndian {
  import opened Primitives

  function Pow256(n: nat): (p: nat)
    ensures p > 0
  {
    if n == 0 then 1 else 256 * Pow256(n - 1)
  }

  lemma Pow256Eight()
    ensures Pow256(8) == TWO_64
  {
  }

  /** The n low-order bytes of x, least significant first. */
  function ToBytes(x: nat, n: nat): (b: seq<byte>)
    ensures |b| == n
  {
    if n == 0 then [] else [x % 256] + ToBytes(x / 256, n - 1)
  }

  /** The number whose little-endian representation is b. */
  function FromBytes(b: seq<byte>): (x: nat)
    ensures x < Pow256(|b|)
  {
    if b == [] then 0 else b[0] + 256 * FromBytes(b[1..])
  }

  lemma {:induction false} FromToBytes(x: nat, n: nat)
    requires x < Pow256(n)
    ensures FromBytes(ToBytes(x, n)) == x
  {
    if n > 0 {
      FromToBytes(x / 256, n - 1);
      assert ToBytes(x, n)[1..] == ToBytes(x / 256, n - 1);
    }
  }

  lemma {:induction false} ToFromBytes(b: seq<byte>)
    ensures ToBytes(FromBytes(b), |b|) == b
  {
    if b != [] {
      ToFromBytes(b[1..]);
      var x := FromBytes(b);
      assert x % 256 == b[0] && x / 256 == FromBytes(b[1..]);
    }
  }

  /** `write_u64`: the eight bytes of x, least significant first. */
  function WriteU64(x: u64): (b: seq<byte>)
    ensures |b| == 8
  {
    ToBytes(x, 8)
  }

  /** `read_u64`: the value of the first eight bytes of b. The source's
      `read_u64` panics on a shorter slice; callers here check first. */
  function ReadU64(b: seq<byte>): u64
    requires |b| >= 8
  {
    Pow256Eight();
    FromBytes(b[..8])
  }

  /** Writing then reading a u64 gives it back, and reading then writing
      eight bytes gives them back: the eight-byte form is a bijection. */
  lemma ReadWriteU64(x: u64)
    ensures ReadU64(WriteU64(x)) == x
  {
    Pow256Eight();
    FromToBytes(x, 8);
    assert WriteU64(x)[..8] == WriteU64(x);
  }

  lemma WriteReadU64(b: seq<byte>)
    requires |b| == 8
    ensures WriteU64(ReadU64(b)) == b
  {
    assert b[..8] == b;
    ToFromBytes(b);
  }
}

/** Hexadecimal text, as the hex crate's `encode` (lower-case digits) and
    `decode` (either case, even length) treat it. Text is kept as the bytes
    of its ASCII characters. */
module Hex {
  import opened Primitives

  /** The lower-case ASCII digit for d: '0'..'9' then 'a'..'f'. */
  function Digit(d: nat): (c: byte)
    requires d < 16
    ensures Value(c) == Some(d)
  {
    if d < 10 then 48 + d else 87 + d
  }

  /** The value of one hex digit, upper or lower case; None for any other byte. */
  function Value(c: byte): (r: Option<nat>)
    ensures r.Some? ==> r.value < 16
  {
    if 48 <= c <= 57 then Some(c - 48)
    else if 97 <= c <= 102 then Some(c - 87)
    else if 65 <= c <= 70 then Some(c - 55)
    else None
  }

  function Encode(b: seq<byte>): (s: seq<byte>)
    ensures |s| == 2 * |b|
  {
    if b == [] then [] else [Digit(b[0] / 16), Digit(b[0] % 16)] + Encode(b[1..])
  }

  function Decode(s: seq<byte>): (r: Option<seq<byte>>)
    ensures r.Some? ==> 2 * |r.value| == |s|
  {
    if |s| % 2 != 0 then None else Pairs(s)
  }

  function Pairs(s: seq<byte>): (r: Option<seq<byte>>)
    requires |s| % 2 == 0
    ensures r.Some? ==> 2 * |r.value| == |s|
  {
    if s == [] then Some([])
    else
      match (Value(s[0]), Value(s[1]), Pairs(s[2..]))
      case (Some(hi), Some(lo), Some(rest)) => Some([hi * 16 + lo] + rest)
      case _ => None
  }

  /** Decoding what was encoded gives back the bytes. */
  lemma {:induction false} DecodeEncode(b: seq<byte>)
    ensures Decode(Encode(b)) == Some(b)
  {
    if b != [] {
      DecodeEncode(b[1..]);
      var s := Encode(b);
      assert s[2..] == Encode(b[1..]);
      assert Value(s[0]) == Some(b[0] / 16) && Value(s[1]) == Some(b[0] % 16);
      assert (b[0] / 16) * 16 + b[0] % 16 == b[0];
      assert Pairs(s[2..]) == Some(b[1..]);
      assert Pairs(s) == Some([b[0]] + b[1..]);
      assert [b[0]] + b[1..] == b;
    }
  }

  /** A single byte that is not a hex digit makes decoding fail. */
  lemma {:induction false} DecodeRejects(s: seq<byte>, i: nat)
    requires i < |s| && Value(s[i]).None?
    ensures Decode(s).None?
  {
    if |s| % 2 == 0 {
      PairsRejects(s, i);
    }
  }

  lemma {:induction false} PairsRejects(s: seq<byte>, i: nat)
    requires |s| % 2 == 0 && i < |s| && Value(s[i]).None?
    ensures Pairs(s).None?
  {
    if i >= 2 {
      PairsRejects(s[2..], i - 2);
    }
  }
}
