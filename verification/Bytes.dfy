/** Bytes and the fixed-width integers stored in them. */
module Bytes {
  type byte = x: int | 0 <= x < 256
  type i32 = x: int | -0x8000_0000 <= x < 0x8000_0000
  type i64 = x: int | -0x8000_0000_0000_0000 <= x < 0x8000_0000_0000_0000

  const TWO32: int := 0x1_0000_0000
  const TWO64: int := 0x1_0000_0000_0000_0000

  /** Conversion to a 32-bit signed integer drops the higher bits. */
  function Wrap32(n: int): (r: i32)
    ensures -0x8000_0000 <= n < 0x8000_0000 ==> r == n
  {
    (n + 0x8000_0000) % TWO32 - 0x8000_0000
  }

  function Wrap64(n: int): (r: i64)
    ensures -0x8000_0000_0000_0000 <= n < 0x8000_0000_0000_0000 ==> r == n
  {
    (n + 0x8000_0000_0000_0000) % TWO64 - 0x8000_0000_0000_0000
  }

  /** The four low bytes of n, least significant first. */
  function LE32(n: int): (b: seq<byte>)
    ensures |b| == 4
  {
    var n1 := n / 256;
    var n2 := n1 / 256;
    var n3 := n2 / 256;
    [n % 256, n1 % 256, n2 % 256, n3 % 256]
  }

  /** The eight low bytes of n, least significant first. */
  function LE64(n: int): (b: seq<byte>)
    ensures |b| == 8
  {
    LE32(n) + LE32(n / TWO32)
  }

  function U32(b: seq<byte>): (n: nat)
    requires |b| == 4
    ensures n < TWO32
  {
    (b[0] as int) + (b[1] as int) * 0x100 + (b[2] as int) * 0x1_0000 + (b[3] as int) * 0x100_0000
  }

  function U64(b: seq<byte>): (n: nat)
    requires |b| == 8
    ensures n < TWO64
  {
    U32(b[..4]) + U32(b[4..]) * TWO32
  }

  lemma FourDigits(n: int, n1: int, n2: int, n3: int)
    requires n1 == n / 256 && n2 == n1 / 256 && n3 == n2 / 256
    ensures n % 256 + n1 % 256 * 0x100 + n2 % 256 * 0x1_0000 + n3 % 256 * 0x100_0000 == n % TWO32
  {
    var n4 := n3 / 256;
    assert n == n4 * TWO32 + (n % 256 + n1 % 256 * 0x100 + n2 % 256 * 0x1_0000 + n3 % 256 * 0x100_0000);
  }

  lemma U32OfLE32(n: int)
    ensures U32(LE32(n)) == n % TWO32
  {
    FourDigits(n, n / 256, n / 256 / 256, n / 256 / 256 / 256);
  }

  lemma TwoHalves(n: int)
    ensures n % TWO32 + n / TWO32 % TWO32 * TWO32 == n % TWO64
  {
  }

  lemma U64OfLE64(n: int)
    ensures U64(LE64(n)) == n % TWO64
  {
    hide U32, LE32;
    U32OfLE32(n);
    U32OfLE32(n / TWO32);
    TwoHalves(n);
    assert LE64(n)[..4] == LE32(n) && LE64(n)[4..] == LE32(n / TWO32);
  }

  lemma WrapModulo(n: int)
    ensures Wrap32(n % TWO32) == Wrap32(n) && Wrap64(n % TWO64) == Wrap64(n)
  {
  }

  /** A stored integer reads back as itself, up to the width it was stored with. */
  lemma SignedBack(n: int)
    ensures Wrap32(U32(LE32(n))) == Wrap32(n) && Wrap64(U64(LE64(n))) == Wrap64(n)
  {
    hide U32, U64, LE32, LE64, Wrap32, Wrap64;
    U32OfLE32(n);
    U64OfLE64(n);
    WrapModulo(n);
  }
}
