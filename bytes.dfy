/** Bytes and the unsigned 64-bit field of the wire format, fixed as 8 bytes little-endian. */
module Bytes {

  type byte = b: int | 0 <= b < 0x100

  const U64_LIMIT: int := 0x1_0000_0000_0000_0000
  const U64_SIZE: nat := 8

  type u64 = x: int | 0 <= x < 0x1_0000_0000_0000_0000

  function Pow256(n: nat): nat {
    if n == 0 then 1 else 256 * Pow256(n - 1)
  }

  /** The `n` low-order bytes of `x`, least significant first. */
  function ToLe(x: nat, n: nat): (r: seq<byte>)
    ensures |r| == n
  {
    if n == 0 then [] else [x % 256] + ToLe(x / 256, n - 1)
  }

  /** The number whose little-endian digits in base 256 are `s`. */
  function FromLe(s: seq<byte>): nat {
    if s == [] then 0 else s[0] + 256 * FromLe(s[1..])
  }

  lemma {:induction false} FromLeBound(s: seq<byte>)
    ensures FromLe(s) < Pow256(|s|)
  {
    if s != [] {
      FromLeBound(s[1..]);
    }
  }

  lemma {:induction false} FromToLe(x: nat, n: nat)
    requires x < Pow256(n)
    ensures FromLe(ToLe(x, n)) == x
  {
    if n > 0 {
      FromToLe(x / 256, n - 1);
    }
  }

  lemma {:induction false} ToFromLe(s: seq<byte>)
    ensures ToLe(FromLe(s), |s|) == s
  {
    if s != [] {
      var x := FromLe(s);
      assert x % 256 == s[0] && x / 256 == FromLe(s[1..]);
      ToFromLe(s[1..]);
    }
  }

  lemma Pow256Eight()
    ensures Pow256(8) == U64_LIMIT
  {
  }

  /** The 8 bytes a `u64` field is written as. */
  function U64Bytes(x: u64): (r: seq<byte>)
    ensures |r| == U64_SIZE
  {
    ToLe(x, 8)
  }

  /** The value an 8-byte `u64` field is read as. */
  function U64Value(b: seq<byte>): u64
    requires |b| == U64_SIZE
  {
    FromLeBound(b);
    Pow256Eight();
    FromLe(b)
  }

  /** Reading back a written field gives the written value. */
  lemma ValueOfBytes(x: u64)
    ensures U64Value(U64Bytes(x)) == x
  {
    Pow256Eight();
    FromToLe(x, 8);
  }

  /** Every 8-byte chunk is the encoding of the value read from it. */
  lemma BytesOfValue(b: seq<byte>)
    requires |b| == U64_SIZE
    ensures U64Bytes(U64Value(b)) == b
  {
    ToFromLe(b);
  }
}
