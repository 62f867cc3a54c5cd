/** What the checksum is, in numbers: its start register, and the division on integers, by
    which checksums of given bytes are worked out. */
module CrcValues {
  import opened Bytes
  import opened Bits
  import opened Crc

  // ----- The start register -----

  lemma {:induction false} AllOnes(k: nat)
    ensures ToBits(Power2(k) - 1, k) == seq(k, _ => true)
  {
    if k != 0 {
      AllOnes(k - 1);
      assert (Power2(k) - 1) / 2 == Power2(k - 1) - 1;
      assert seq(k - 1, _ => true) + [true] == seq(k, _ => true);
    }
  }

  /** The checksum of nothing is the start register: sixteen ones. */
  lemma EmptyChecksum()
    ensures Crc16([]) == seq(16, _ => true)
  {
    Powers();
    AllOnes(16);
  }

  function Complement(w: seq<bool>): (c: seq<bool>)
    ensures |c| == |w| && forall i :: 0 <= i < |w| ==> c[i] == !w[i]
  {
    seq(|w|, i requires 0 <= i < |w| => !w[i])
  }

  /** The usual description: division from the zero register, with the first sixteen bits of
      the message complemented. */
  lemma StartComplements(data: seq<byte>)
    requires |data| >= 2
    ensures var w := BitString(data);
            Crc16(data) == Divide(Zeros(16), Complement(w[..16]) + w[16..])
  {
    hide Divide, BitString, Crc16, Shift, ToBits;
    var w, ones := BitString(data), Crc16([]);
    EmptyChecksum();
    CrcIsDivision(data);
    DivideAppend(ones, w[..16], w[16..]);
    DivideAppend(Zeros(16), Complement(w[..16]), w[16..]);
    AbsorbWord(ones, w[..16]);
    AbsorbWord(Zeros(16), Complement(w[..16]));
    assert w[..16] + w[16..] == w;
    assert Xor(ones, w[..16]) == Complement(w[..16]) == Xor(Zeros(16), Complement(w[..16]));
  }

  lemma CrcIsDivision(data: seq<byte>)
    ensures Crc16(data) == Divide(Crc16([]), BitString(data))
  {
  }

  // ----- Division on integers -----

  /** A number with the bit of weight k flipped. */
  function FlipBit(n: int, k: int): int
    requires k > 0
  {
    if n % (2 * k) < k then n + k else n - k
  }

  /** Bits 0, 5 and 12 flipped: exclusive or with the generator. */
  function Flip(m: int): int {
    FlipBit(FlipBit(FlipBit(m, 1), 0x20), 0x1000)
  }

  /** One step of the division on the number the register stands for: moved up, and flipped
      if the outgoing bit differs from the incoming one. */
  function StepNat(n: int, bit: bool): int {
    var m := if n >= 0x8000 then 2 * n - 0x1_0000 else 2 * n;
    if (n >= 0x8000) == bit then m else Flip(m)
  }

  lemma FlipBit0(high: nat, x: nat)
    requires x < 2
    ensures FlipBit(2 * high + x, 1) == 2 * high + (1 - x)
  {
  }

  lemma FlipBit5(high: nat, x: nat, low: nat)
    requires x < 2 && low < 0x20
    ensures FlipBit(0x40 * high + 0x20 * x + low, 0x20) == 0x40 * high + 0x20 * (1 - x) + low
  {
    assert (0x40 * high + (0x20 * x + low)) % 0x40 == 0x20 * x + low;
  }

  lemma FlipBit12(high: nat, x: nat, low: nat)
    requires x < 2 && low < 0x1000
    ensures FlipBit(0x2000 * high + 0x1000 * x + low, 0x1000) == 0x2000 * high + 0x1000 * (1 - x) + low
  {
    assert (0x2000 * high + (0x1000 * x + low)) % 0x2000 == 0x1000 * x + low;
  }

  lemma FlipDigits(a: nat, x: nat, c: nat, y: nat, d: nat, z: nat)
    requires x < 2 && c < 64 && y < 2 && d < 16 && z < 2
    ensures Flip(0x2000 * a + 0x1000 * x + 0x40 * c + 0x20 * y + 2 * d + z) ==
            0x2000 * a + 0x1000 * (1 - x) + 0x40 * c + 0x20 * (1 - y) + 2 * d + (1 - z)
  {
    hide FlipBit;
    FlipBit0(0x1000 * a + 0x800 * x + 0x20 * c + 0x10 * y + d, z);
    FlipBit5(0x80 * a + 0x40 * x + c, y, 2 * d + (1 - z));
    FlipBit12(a, x, 0x40 * c + 0x20 * (1 - y) + 2 * d + (1 - z));
  }

  lemma FlipBits(m: nat)
    requires m < 0x1_0000
    ensures 0 <= Flip(m) < 0x1_0000
    ensures ToBits(Flip(m), 16) == Xor(ToBits(m, 16), ToBits(GENERATOR, 16))
  {
    hide ToBits, Flip;
    var a, x, c, y, d, z := m / 0x2000, m / 0x1000 % 2, m / 0x40 % 0x40, m / 0x20 % 2, m / 2 % 0x10, m % 2;
    DigitsOf(m);
    FlipDigits(a, x, c, y, d, z);
    Digits(m, a, x, c, y, d, z);
    Digits(Flip(m), a, 1 - x, c, 1 - y, d, 1 - z);
    GeneratorBits();
    FlipThree(ToBits(a, 3), x == 1, ToBits(c, 6), y == 1, ToBits(d, 4), z == 1);
  }

  lemma StepNatBits(n: uint16, bit: bool)
    ensures 0 <= StepNat(n, bit) < 0x1_0000
    ensures ToBits(StepNat(n, bit), 16) == Feed(ToBits(n, 16), bit)
  {
    hide ToBits, Feed, Flip;
    Powers();
    TopBit(n, 16);
    var low := if n < 0x8000 then n else n - 0x8000;
    if n >= 0x8000 {
      TopOff(low, 15);
    }
    FeedEither(low, ToBits(n, 16), bit);
    FlipBits(2 * low);
  }

  lemma FeedEither(m: nat, r: seq<bool>, bit: bool)
    requires Register(r) && r[1..] == ToBits(m, 15)
    ensures Feed(r, bit) ==
            if r[0] != bit then Xor(ToBits(2 * m, 16), ToBits(GENERATOR, 16)) else ToBits(2 * m, 16)
  {
    JoinBit(m, 0, 15);
  }

  /** The steps of one byte, most significant bit first. */
  function ByteNat(n: int, b: byte): int {
    var b1 := b / 2;
    var b2 := b1 / 2;
    var b3 := b2 / 2;
    var b4 := b3 / 2;
    var b5 := b4 / 2;
    var b6 := b5 / 2;
    var b7 := b6 / 2;
    StepNat(StepNat(StepNat(StepNat(StepNat(StepNat(StepNat(StepNat(n,
      b7 % 2 == 1), b6 % 2 == 1), b5 % 2 == 1), b4 % 2 == 1), b3 % 2 == 1), b2 % 2 == 1), b1 % 2 == 1), b % 2 == 1)
  }

  lemma BitsOfByte(b: byte)
    ensures var b1 := b / 2;
            var b2 := b1 / 2;
            var b3 := b2 / 2;
            var b4 := b3 / 2;
            var b5 := b4 / 2;
            var b6 := b5 / 2;
            var b7 := b6 / 2;
            ToBits(b, 8) == [b7 % 2 == 1, b6 % 2 == 1, b5 % 2 == 1, b4 % 2 == 1,
                             b3 % 2 == 1, b2 % 2 == 1, b1 % 2 == 1, b % 2 == 1]
  {
    hide ToBits;
    var b4 := b / 2 / 2 / 2 / 2;
    FourBits(b, 4);
    FourBits(b4, 0);
    NoBits(b4 / 2 / 2 / 2 / 2);
  }

  lemma FourBits(n: nat, k: nat)
    ensures ToBits(n, k + 4) == ToBits(n / 2 / 2 / 2 / 2, k)
            + [n / 2 / 2 / 2 % 2 == 1, n / 2 / 2 % 2 == 1, n / 2 % 2 == 1, n % 2 == 1]
  {
    hide ToBits;
    Half(n, k + 3);
    Half(n / 2, k + 2);
    Half(n / 2 / 2, k + 1);
    Half(n / 2 / 2 / 2, k);
  }

  lemma Half(n: nat, k: nat)
    ensures ToBits(n, k + 1) == ToBits(n / 2, k) + [n % 2 == 1]
  {
  }

  lemma NoBits(n: nat)
    ensures ToBits(n, 0) == []
  {
  }

  lemma DivideEight(r: seq<bool>, a: bool, b: bool, c: bool, d: bool, e: bool, f: bool, g: bool, h: bool)
    requires Register(r)
    ensures Divide(r, [a, b, c, d, e, f, g, h]) ==
            Feed(Feed(Feed(Feed(Feed(Feed(Feed(Feed(r, a), b), c), d), e), f), g), h)
  {
    hide Feed, Divide;
    DivideFour(r, a, b, c, d);
    DivideFour(Feed(Feed(Feed(Feed(r, a), b), c), d), e, f, g, h);
    DivideAppend(r, [a, b, c, d], [e, f, g, h]);
    FourAndFour(a, b, c, d, e, f, g, h);
  }

  lemma FourAndFour(a: bool, b: bool, c: bool, d: bool, e: bool, f: bool, g: bool, h: bool)
    ensures [a, b, c, d] + [e, f, g, h] == [a, b, c, d, e, f, g, h]
  {
  }

  lemma DivideFour(r: seq<bool>, a: bool, b: bool, c: bool, d: bool)
    requires Register(r)
    ensures Divide(r, [a, b, c, d]) == Feed(Feed(Feed(Feed(r, a), b), c), d)
  {
    hide Feed, Divide;
    DivideFirst(r, a, [b, c, d]);
    DivideFirst(Feed(r, a), b, [c, d]);
    DivideFirst(Feed(Feed(r, a), b), c, [d]);
    DivideFirst(Feed(Feed(Feed(r, a), b), c), d, []);
    DivideNone(Feed(Feed(Feed(Feed(r, a), b), c), d));
    assert [a, b, c, d] == [a] + [b, c, d] && [b, c, d] == [b] + [c, d] && [c, d] == [c] + [d] && [d] == [d] + [];
  }

  lemma DivideFirst(r: seq<bool>, bit: bool, bits: seq<bool>)
    requires Register(r)
    ensures Divide(r, [bit] + bits) == Divide(Feed(r, bit), bits)
  {
    hide Feed;
    assert ([bit] + bits)[1..] == bits;
  }

  lemma DivideNone(r: seq<bool>)
    requires Register(r)
    ensures Divide(r, []) == r
  {
  }

  lemma ByteNatDivides(n: uint16, b: byte)
    ensures 0 <= ByteNat(n, b) < 0x1_0000
    ensures Divide(ToBits(n, 16), ToBits(b, 8)) == ToBits(ByteNat(n, b), 16)
  {
    hide ToBits, StepNat, Divide, Feed;
    var b1 := b / 2;
    var b2 := b1 / 2;
    var b3 := b2 / 2;
    var b4 := b3 / 2;
    var b5 := b4 / 2;
    var b6 := b5 / 2;
    var b7 := b6 / 2;
    BitsOfByte(b);
    var n1 := StepNat(n, b7 % 2 == 1);
    StepNatBits(n, b7 % 2 == 1);
    var n2 := StepNat(n1, b6 % 2 == 1);
    StepNatBits(n1, b6 % 2 == 1);
    var n3 := StepNat(n2, b5 % 2 == 1);
    StepNatBits(n2, b5 % 2 == 1);
    var n4 := StepNat(n3, b4 % 2 == 1);
    StepNatBits(n3, b4 % 2 == 1);
    var n5 := StepNat(n4, b3 % 2 == 1);
    StepNatBits(n4, b3 % 2 == 1);
    var n6 := StepNat(n5, b2 % 2 == 1);
    StepNatBits(n5, b2 % 2 == 1);
    var n7 := StepNat(n6, b1 % 2 == 1);
    StepNatBits(n6, b1 % 2 == 1);
    StepNatBits(n7, b % 2 == 1);
    DivideEight(ToBits(n, 16), b7 % 2 == 1, b6 % 2 == 1, b5 % 2 == 1, b4 % 2 == 1,
                b3 % 2 == 1, b2 % 2 == 1, b1 % 2 == 1, b % 2 == 1);
  }

  function CrcFrom(n: int, data: seq<byte>): int
    decreases |data|
  {
    if data == [] then n else CrcFrom(ByteNat(n, data[0]), data[1..])
  }

  lemma {:induction false} CrcFromDivides(n: uint16, data: seq<byte>)
    ensures 0 <= CrcFrom(n, data) < 0x1_0000
    ensures Divide(ToBits(n, 16), BitString(data)) == ToBits(CrcFrom(n, data), 16)
    decreases |data|
  {
    hide ToBits, ByteNat;
    if data != [] {
      DivideAppend(ToBits(n, 16), ToBits(data[0], 8), BitString(data[1..]));
      ByteNatDivides(n, data[0]);
      CrcFromDivides(ByteNat(n, data[0]), data[1..]);
    }
  }

  /** The checksum as a number. */
  lemma CrcNumber(data: seq<byte>)
    ensures 0 <= CrcFrom(0xFFFF, data) < 0x1_0000
    ensures Crc16(data) == ToBits(CrcFrom(0xFFFF, data), 16)
  {
    hide ToBits, CrcFrom;
    CrcFromDivides(0xFFFF, data);
  }

  /** Going on by a byte, given the registers after each of its bits. */
  lemma OneByte(n: int, b: byte, a: int, c: int, d: int, e: int, f: int, g: int, h: int, m: int, data: seq<byte>)
    requires a == StepNat(n, b / 2 / 2 / 2 / 2 / 2 / 2 / 2 % 2 == 1)
    requires c == StepNat(a, b / 2 / 2 / 2 / 2 / 2 / 2 % 2 == 1)
    requires d == StepNat(c, b / 2 / 2 / 2 / 2 / 2 % 2 == 1)
    requires e == StepNat(d, b / 2 / 2 / 2 / 2 % 2 == 1)
    requires f == StepNat(e, b / 2 / 2 / 2 % 2 == 1)
    requires g == StepNat(f, b / 2 / 2 % 2 == 1)
    requires h == StepNat(g, b / 2 % 2 == 1)
    requires m == StepNat(h, b % 2 == 1)
    ensures CrcFrom(n, [b] + data) == CrcFrom(m, data)
  {
    hide StepNat;
    assert ([b] + data)[1..] == data;
  }

  // Single bytes from given registers, named by register and byte.

  lemma ByteFFFFAnd31(data: seq<byte>)
    ensures CrcFrom(0xFFFF, [0x31] + data) == CrcFrom(0xC782, data)
  {
    hide CrcFrom;
    OneByte(0xFFFF, 0x31, 0xEFDF, 0xCF9F, 0x9F3E, 0x3E7C, 0x7CF8, 0xF9F0, 0xE3C1, 0xC782, data);
  }

  lemma ByteC782And32(data: seq<byte>)
    ensures CrcFrom(0xC782, [0x32] + data) == CrcFrom(0x3DBA, data)
  {
    hide CrcFrom;
    OneByte(0xC782, 0x32, 0x9F25, 0x2E6B, 0x4CF7, 0x89CF, 0x03BF, 0x077E, 0x1EDD, 0x3DBA, data);
  }

  lemma Byte3DBAAnd33(data: seq<byte>)
    ensures CrcFrom(0x3DBA, [0x33] + data) == CrcFrom(0x5BCE, data)
  {
    hide CrcFrom;
    OneByte(0x3DBA, 0x33, 0x7B74, 0xF6E8, 0xEDD0, 0xDBA0, 0xA761, 0x5EE3, 0xADE7, 0x5BCE, data);
  }

  lemma Byte5BCEAnd34(data: seq<byte>)
    ensures CrcFrom(0x5BCE, [0x34] + data) == CrcFrom(0x5349, data)
  {
    hide CrcFrom;
    OneByte(0x5BCE, 0x34, 0xB79C, 0x7F19, 0xEE13, 0xDC26, 0xA86D, 0x50DA, 0xA1B4, 0x5349, data);
  }

  lemma Byte5349And35(data: seq<byte>)
    ensures CrcFrom(0x5349, [0x35] + data) == CrcFrom(0x4560, data)
  {
    hide CrcFrom;
    OneByte(0x5349, 0x35, 0xA692, 0x5D05, 0xAA2B, 0x5456, 0xA8AC, 0x5158, 0xA2B0, 0x4560, data);
  }

  lemma Byte4560And36(data: seq<byte>)
    ensures CrcFrom(0x4560, [0x36] + data) == CrcFrom(0x2EF4, data)
  {
    hide CrcFrom;
    OneByte(0x4560, 0x36, 0x8AC0, 0x05A1, 0x1B63, 0x26E7, 0x4DCE, 0x8BBD, 0x177A, 0x2EF4, data);
  }

  lemma Byte2EF4And37(data: seq<byte>)
    ensures CrcFrom(0x2EF4, [0x37] + data) == CrcFrom(0x7718, data)
  {
    hide CrcFrom;
    OneByte(0x2EF4, 0x37, 0x5DE8, 0xBBD0, 0x77A0, 0xFF61, 0xEEE3, 0xDDC6, 0xBB8C, 0x7718, data);
  }

  lemma Byte7718And38(data: seq<byte>)
    ensures CrcFrom(0x7718, [0x38] + data) == CrcFrom(0xA12B, data)
  {
    hide CrcFrom;
    OneByte(0x7718, 0x38, 0xEE30, 0xCC41, 0x9882, 0x3104, 0x7229, 0xE452, 0xD885, 0xA12B, data);
  }

  lemma ByteA12BAnd39(data: seq<byte>)
    ensures CrcFrom(0xA12B, [0x39] + data) == CrcFrom(0x29B1, data)
  {
    hide CrcFrom;
    OneByte(0xA12B, 0x39, 0x5277, 0xA4EE, 0x49DC, 0x8399, 0x0732, 0x0E64, 0x1CC8, 0x29B1, data);
  }

  /** The check value of this CRC: of the digits 1 to 9 in ASCII. */
  lemma CheckValue()
    ensures Crc16([0x31, 0x32, 0x33, 0x34, 0x35, 0x36, 0x37, 0x38, 0x39]) == ToBits(0x29B1, 16)
  {
    hide ToBits, CrcFrom, Crc16;
    var nine: seq<byte> := [0x39];
    var eight := [0x38] + nine;
    var seven := [0x37] + eight;
    var six := [0x36] + seven;
    var five := [0x35] + six;
    var four := [0x34] + five;
    var three := [0x33] + four;
    var two := [0x32] + three;
    var data := [0x31] + two;
    CrcNumber(data);
    ByteFFFFAnd31(two);
    ByteC782And32(three);
    Byte3DBAAnd33(four);
    Byte5BCEAnd34(five);
    Byte5349And35(six);
    Byte4560And36(seven);
    Byte2EF4And37(eight);
    Byte7718And38(nine);
    ByteA12BAnd39([]);
    NoByte(0x29B1);
    assert [0x39] + [] == nine;
    assert data == [0x31, 0x32, 0x33, 0x34, 0x35, 0x36, 0x37, 0x38, 0x39];
  }

  lemma NoByte(n: int)
    ensures CrcFrom(n, []) == n
  {
  }
}
