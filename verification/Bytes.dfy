/** Bytes and the little-endian integer fields of the packed structures. */
module Bytes {

  type byte = x: int | 0 <= x < 0x100
  type uint16 = x: int | 0 <= x < 0x1_0000
  type uint32 = x: int | 0 <= x < 0x1_0000_0000

  /** A byte string whose length fits a 16-bit field. */
  type Payload = s: seq<byte> | |s| < 0x1_0000

  function Le16(lo: byte, hi: byte): uint16 {
    lo as int + 0x100 * hi as int
  }

  /** The four bytes at offset `at`, least significant first. */
  function Le32(s: seq<byte>, at: nat): uint32
    requires at + 4 <= |s|
  {
    Le16(s[at], s[at + 1]) as int + 0x1_0000 * Le16(s[at + 2], s[at + 3]) as int
  }

  /** The least significant byte comes first. */
  lemma LittleEndian(a: byte, b: byte, c: byte, d: byte)
    ensures Le16(a, 0) == a && Le16(0, a) == 0x100 * a && Le16(a, b) == a + 0x100 * b
    ensures Le32([a, b, c, d], 0) == a + 0x100 * (b + 0x100 * (c + 0x100 * d))
  {
  }

  function PutLe16(n: uint16): (s: seq<byte>)
    ensures |s| == 2 && Le16(s[0], s[1]) == n
  {
    [n % 0x100, n / 0x100]
  }

  function PutLe32(n: uint32): (s: seq<byte>)
    ensures |s| == 4 && Le32(s, 0) == n
  {
    PutLe16(n % 0x1_0000) + PutLe16(n / 0x1_0000)
  }

  lemma PutLittleEndian(n: uint32)
    ensures PutLe32(n) == [n % 0x100, n / 0x100 % 0x100, n / 0x1_0000 % 0x100, n / 0x100_0000]
    ensures n < 0x1_0000 ==> PutLe16(n) == [n % 0x100, n / 0x100]
  {
    assert n % 0x1_0000 % 0x100 == n % 0x100 && n % 0x1_0000 / 0x100 == n / 0x100 % 0x100;
    assert n / 0x1_0000 / 0x100 == n / 0x100_0000;
  }
}
