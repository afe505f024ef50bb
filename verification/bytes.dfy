/** Bytes, machine-width integers and little-endian encoding. */
module Bytes {

  type Byte = b: int | 0 <= b < 256

  const TWO_TO_32 := 0x1_0000_0000
  const TWO_TO_63 := 0x8000_0000_0000_0000
  const TWO_TO_64 := 0x1_0000_0000_0000_0000

  type U32 = n: int | 0 <= n < TWO_TO_32
  type U64 = n: int | 0 <= n < TWO_TO_64
  type I64 = n: int | -TWO_TO_63 <= n < TWO_TO_63

  const MAX_U64: U64 := TWO_TO_64 - 1

  /** `n + 1` on a 64-bit unsigned integer. */
  function Inc64(n: U64): (r: U64)
    ensures r == (n + 1) % 0x1_0000_0000_0000_0000
  {
    if n == MAX_U64 then 0 else n + 1
  }

  /** Go's conversion `uint64(ts)`: the two's complement bit pattern. */
  function ToUnsigned(n: I64): U64 {
    if n >= 0 then n else n + TWO_TO_64
  }

  /** Go's conversion `int64(n)`. */
  function ToSigned(n: U64): I64 {
    if n < TWO_TO_63 then n else n - TWO_TO_64
  }

  function Pow256(k: nat): nat {
    if k == 0 then 1 else 256 * Pow256(k - 1)
  }

  lemma Widths()
    ensures Pow256(4) == TWO_TO_32 && Pow256(8) == TWO_TO_64
  {
    assert Pow256(2) == 65536;
    assert Pow256(4) == 65536 * 65536;
    assert Pow256(6) == 65536 * Pow256(4);
    assert Pow256(8) == 65536 * Pow256(6);
  }

  /** The `k` low-order bytes of `n`, least significant first. */
  function LittleEndian(n: nat, k: nat): (b: seq<Byte>)
    ensures |b| == k
  {
    if k == 0 then [] else [n % 256] + LittleEndian(n / 256, k - 1)
  }

  function FromLittleEndian(b: seq<Byte>): nat {
    if b == [] then 0 else b[0] + 256 * FromLittleEndian(b[1..])
  }

  lemma {:induction false} DecodeEncode(n: nat, k: nat)
    requires n < Pow256(k)
    ensures FromLittleEndian(LittleEndian(n, k)) == n
  {
    if k > 0 {
      DecodeEncode(n / 256, k - 1);
    }
  }

  lemma {:induction false} EncodeDecode(b: seq<Byte>)
    ensures FromLittleEndian(b) < Pow256(|b|)
    ensures LittleEndian(FromLittleEndian(b), |b|) == b
  {
    if b != [] {
      EncodeDecode(b[1..]);
      var n := FromLittleEndian(b);
      assert n % 256 == b[0] && n / 256 == FromLittleEndian(b[1..]);
    }
  }

  lemma DecodeEncode64(n: U64)
    ensures FromLittleEndian(LittleEndian(n, 8)) == n
  {
    Widths();
    DecodeEncode(n, 8);
  }

  lemma DecodeEncode32(n: U32)
    ensures FromLittleEndian(LittleEndian(n, 4)) == n
  {
    Widths();
    DecodeEncode(n, 4);
  }

  function Read64(b: seq<Byte>): U64
    requires |b| == 8
  {
    Widths();
    EncodeDecode(b);
    FromLittleEndian(b)
  }

  function Read32(b: seq<Byte>): U32
    requires |b| == 4
  {
    Widths();
    EncodeDecode(b);
    FromLittleEndian(b)
  }
}
