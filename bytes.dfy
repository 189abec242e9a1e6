/** Fixed-width integers and little-endian field decoding used by the container format. */
module Bytes {

  const U16Modulus: nat := 0x1_0000
  const U32Modulus: nat := 0x1_0000_0000
  const U64Modulus: nat := 0x1_0000_0000_0000_0000

  type byte = x: nat | x < 0x100
  type u16 = x: nat | x < 0x1_0000
  type u32 = x: nat | x < 0x1_0000_0000
  type u64 = x: nat | x < 0x1_0000_0000_0000_0000

  datatype Option<T> = None | Some(value: T)

  /** An unsigned 16-bit little-endian field at offset i. */
  function U16At(s: seq<byte>, i: nat): u16
    requires i + 2 <= |s|
  {
    s[i] as nat + 0x100 * (s[i + 1] as nat)
  }

  /** A signed (two's complement) 16-bit little-endian field at offset i. */
  function I16At(s: seq<byte>, i: nat): (r: int)
    requires i + 2 <= |s|
    ensures -0x8000 <= r < 0x8000
  {
    var u := U16At(s, i);
    if u >= 0x8000 then u - U16Modulus else u
  }

  /** An unsigned 32-bit little-endian field at offset i. */
  function U32At(s: seq<byte>, i: nat): u32
    requires i + 4 <= |s|
  {
    U16At(s, i) as nat + U16Modulus * (U16At(s, i + 2) as nat)
  }

  /** An unsigned 64-bit little-endian field at offset i. */
  function U64At(s: seq<byte>, i: nat): u64
    requires i + 8 <= |s|
  {
    U32At(s, i) as nat + U32Modulus * (U32At(s, i + 4) as nat)
  }

  /** Unsigned 64-bit subtraction, wrapping as C++ `uint64_t` arithmetic does. */
  function SubU64(a: u64, b: u64): (r: u64)
    ensures a >= b ==> r == a - b
    ensures a < b ==> r == a - b + U64Modulus
  {
    (a - b) % U64Modulus
  }

  /** A run of n zero bytes (what `std::vector::resize` fills in). */
  function Zeros(n: nat): (r: seq<byte>)
    ensures |r| == n && forall i :: 0 <= i < n ==> r[i] == 0
  {
    seq(n, _ => 0)
  }

  function Min(a: nat, b: nat): nat { if a <= b then a else b }

  lemma ConcatAssoc<T>(a: seq<T>, b: seq<T>, c: seq<T>)
    ensures (a + b) + c == a + (b + c)
  {
  }
}
