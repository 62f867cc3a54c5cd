/** The frame checksum (omnicomm/utils.cpp): a table-driven CRC, its bit-serial
    definition, and what it detects. A 16-bit register is its sixteen bits. */
module Crc {
  import opened Bytes
  import opened Bits
  import opened CrcTable

  /** The generator x^16 + x^12 + x^5 + 1 of ITU-T Recommendation V.41, section 2,
      without its leading term. */
  const GENERATOR := 0x1021

  // ----- The reference: division one bit at a time -----

  predicate Register(r: seq<bool>) {
    |r| == 16
  }

  /** One step of the shift register: the outgoing bit meets the incoming one. */
  function Feed(r: seq<bool>, bit: bool): (r': seq<bool>)
    requires Register(r)
    ensures Register(r')
  {
    var s := r[1..] + [false];
    if r[0] != bit then Xor(s, ToBits(GENERATOR, 16)) else s
  }

  function Divide(r: seq<bool>, bits: seq<bool>): (r': seq<bool>)
    requires Register(r)
    ensures Register(r')
    decreases |bits|
  {
    if bits == [] then r else Divide(Feed(r, bits[0]), bits[1..])
  }

  /** The bits of a byte string in transmission order. */
  function BitString(data: seq<byte>): (w: seq<bool>)
    ensures |w| == 8 * |data|
  {
    if data == [] then [] else ToBits(data[0], 8) + BitString(data[1..])
  }

  /** The CRC-16 of a byte string: division from the all-ones register. */
  function Crc16(data: seq<byte>): (r: seq<bool>)
    ensures Register(r)
  {
    Divide(ToBits(0xFFFF, 16), BitString(data))
  }

  // ----- Division is linear -----

  lemma FeedLinear(a: seq<bool>, b: seq<bool>, p: bool, q: bool)
    requires Register(a) && Register(b)
    ensures Feed(Xor(a, b), p != q) == Xor(Feed(a, p), Feed(b, q))
  {
  }

  lemma {:induction false} DivideLinear(a: seq<bool>, b: seq<bool>, v: seq<bool>, w: seq<bool>)
    requires Register(a) && Register(b) && |v| == |w|
    ensures Divide(Xor(a, b), Xor(v, w)) == Xor(Divide(a, v), Divide(b, w))
    decreases |v|
  {
    if v != [] {
      FeedLinear(a, b, v[0], w[0]);
      DivideLinear(Feed(a, v[0]), Feed(b, w[0]), v[1..], w[1..]);
      assert Xor(v, w)[1..] == Xor(v[1..], w[1..]);
    }
  }

  lemma {:induction false} DivideAppend(r: seq<bool>, v: seq<bool>, w: seq<bool>)
    requires Register(r)
    ensures Divide(r, v + w) == Divide(Divide(r, v), w)
    decreases |v|
  {
    if v == [] {
      assert v + w == w;
    } else {
      assert (v + w)[1..] == v[1..] + w;
      DivideAppend(Feed(r, v[0]), v[1..], w);
    }
  }

  // ----- Feeding zeros, and feeding a word against the register -----

  function Shift(r: seq<bool>, k: nat): (r': seq<bool>)
    requires Register(r)
    ensures Register(r')
  {
    Divide(r, Zeros(k))
  }

  lemma ShiftStep(r: seq<bool>, k: nat)
    requires Register(r) && k > 0
    ensures Shift(r, k) == Shift(Feed(r, false), k - 1)
  {
    assert Zeros(k)[1..] == Zeros(k - 1);
  }

  lemma ShiftLinear(a: seq<bool>, b: seq<bool>, k: nat)
    requires Register(a) && Register(b)
    ensures Shift(Xor(a, b), k) == Xor(Shift(a, k), Shift(b, k))
  {
    DivideLinear(a, b, Zeros(k), Zeros(k));
    assert Xor(Zeros(k), Zeros(k)) == Zeros(k);
  }

  /** A 16-bit number cut where the generator has its one bits. */
  lemma Digits(n: nat, a: nat, x: nat, c: nat, y: nat, d: nat, z: nat)
    requires x < 2 && c < 64 && y < 2 && d < 16 && z < 2
    requires n == 0x2000 * a + 0x1000 * x + 0x40 * c + 0x20 * y + 2 * d + z
    ensures ToBits(n, 16) == ToBits(a, 3) + [x == 1] + ToBits(c, 6) + [y == 1] + ToBits(d, 4) + [z == 1]
  {
    hide ToBits;
    var m2 := 2 * a + x;
    var m4 := 2 * (0x40 * m2 + c) + y;
    JoinBit(0x10 * m4 + d, z, 15);
    JoinBits(m4, d, 11, 4);
    JoinBit(0x40 * m2 + c, y, 10);
    JoinBits(m2, c, 4, 6);
    JoinBit(a, x, 3);
    assert n == 2 * (0x10 * m4 + d) + z;
  }

  lemma GeneratorBits()
    ensures ToBits(GENERATOR, 16) == Zeros(3) + [true] + Zeros(6) + [true] + Zeros(4) + [true]
  {
    Digits(GENERATOR, 0, 1, 0, 1, 0, 1);
    ZeroBits(3);
    ZeroBits(4);
    ZeroBits(6);
  }

  /** Shifting never turns a nonzero register into zero, nor zero into nonzero. */
  lemma {:induction false} ShiftZero(r: seq<bool>, k: nat)
    requires Register(r)
    ensures Shift(r, k) == Zeros(16) <==> r == Zeros(16)
    decreases k
  {
    hide ToBits;
    if k == 0 {
      assert Zeros(0) == [];
    } else {
      ShiftStep(r, k);
      ShiftZero(Feed(r, false), k - 1);
      GeneratorBits();
      var s := Feed(r, false);
      if s == Zeros(16) {
        assert !s[15];
        assert forall i :: 0 < i < 16 ==> r[i] == s[i - 1];
      }
      assert r == Zeros(16) ==> s == Zeros(16);
    }
  }

  /** Feeding the first k bits of a word is the same as adding the word to the
      register and shifting, up to the bits of the word not fed yet. */
  lemma {:induction false} Absorb(r: seq<bool>, w: seq<bool>, k: nat)
    requires Register(r) && Register(w) && k <= 16
    ensures Divide(r, w[..k]) == Xor(Shift(Xor(r, w), k), w[k..] + Zeros(k))
    decreases k
  {
    hide ToBits;
    if k == 0 {
      assert Xor(Xor(r, w), w[0..] + Zeros(0)) == r;
    } else {
      var w' := w[1..] + [false];
      assert Feed(w, w[0]) == w';
      assert w[..k][1..] == w'[..k - 1];
      FeedLinear(r, w, w[0], w[0]);
      ShiftStep(Xor(r, w), k);
      Absorb(Feed(r, w[0]), w', k - 1);
      RotatedTail(w, k);
    }
  }

  lemma RotatedTail(w: seq<bool>, k: nat)
    requires Register(w) && 0 < k <= 16
    ensures (w[1..] + [false])[k - 1..] + Zeros(k - 1) == w[k..] + Zeros(k)
  {
  }

  lemma AbsorbWord(r: seq<bool>, w: seq<bool>)
    requires Register(r) && Register(w)
    ensures Divide(r, w) == Shift(Xor(r, w), 16)
  {
    Absorb(r, w, 16);
    assert w[..16] == w;
    assert Xor(Shift(Xor(r, w), 16), w[16..] + Zeros(16)) == Shift(Xor(r, w), 16);
  }

  lemma AbsorbByte(r: seq<bool>, b: seq<bool>)
    requires Register(r) && |b| == 8
    ensures Divide(r, b) == Shift(Xor(r, b + Zeros(8)), 8)
  {
    var w := b + Zeros(8);
    Absorb(r, w, 8);
    assert w[..8] == b;
    assert Xor(Shift(Xor(r, w), 8), w[8..] + Zeros(8)) == Shift(Xor(r, w), 8);
  }

  // ----- The table holds the eight-step remainders -----

  function Remainder(b: seq<bool>): (r: seq<bool>)
    requires |b| == 8
    ensures Register(r)
  {
    Shift(b + Zeros(8), 8)
  }

  lemma AddGeneratorBits(n: nat)
    ensures AddGenerator(n) >= 0
    ensures ToBits(AddGenerator(n), 16) == Xor(ToBits(n, 16), ToBits(GENERATOR, 16))
  {
    var a, x, c, y, d, z := n / 0x2000, n / 0x1000 % 2, n / 0x40 % 0x40, n / 0x20 % 2, n / 2 % 0x10, n % 2;
    DigitsOf(n);
    Digits(n, a, x, c, y, d, z);
    Digits(AddGenerator(n), a, 1 - x, c, 1 - y, d, 1 - z);
    GeneratorBits();
    FlipThree(ToBits(a, 3), x == 1, ToBits(c, 6), y == 1, ToBits(d, 4), z == 1);
  }

  lemma DigitsOf(n: nat)
    ensures n == 0x2000 * (n / 0x2000) + 0x1000 * (n / 0x1000 % 2) + 0x40 * (n / 0x40 % 0x40)
                 + 0x20 * (n / 0x20 % 2) + 2 * (n / 2 % 0x10) + n % 2
  {
    assert n / 0x20 == 2 * (n / 0x40) + n / 0x20 % 2;
    assert n / 2 == 0x10 * (n / 0x20) + n / 2 % 0x10;
    assert n / 0x40 == 0x40 * (n / 0x1000) + n / 0x40 % 0x40;
    assert n / 0x1000 == 2 * (n / 0x2000) + n / 0x1000 % 2;
  }

  lemma FlipThree(a: seq<bool>, x: bool, c: seq<bool>, y: bool, d: seq<bool>, z: bool)
    requires |a| == 3 && |c| == 6 && |d| == 4
    ensures Xor(a + [x] + c + [y] + d + [z], Zeros(3) + [true] + Zeros(6) + [true] + Zeros(4) + [true])
            == a + [!x] + c + [!y] + d + [!z]
  {
  }

  lemma FeedNatBits(n: uint16)
    ensures FeedNat(n) >= 0
    ensures ToBits(FeedNat(n), 16) == Feed(ToBits(n, 16), false)
  {
    hide AddGenerator, Feed, ToBits;
    Powers();
    TopBit(n, 16);
    if n < 0x8000 {
      FeedLow(n, ToBits(n, 16));
    } else {
      TopOff(n - 0x8000, 15);
      FeedLow(n - 0x8000, ToBits(n, 16));
      AddGeneratorBits(2 * (n - 0x8000));
    }
  }

  lemma FeedLow(m: nat, r: seq<bool>)
    requires Register(r) && r[1..] == ToBits(m, 15)
    ensures Feed(r, false) ==
            if r[0] then Xor(ToBits(2 * m, 16), ToBits(GENERATOR, 16)) else ToBits(2 * m, 16)
  {
    JoinBit(m, 0, 15);
  }

  /** Appending a bit on the right of a byte whose top bit is clear. */
  lemma RemainderDoubles(b: seq<bool>, bit: bool)
    requires |b| == 7
    ensures Remainder(b + [bit]) ==
            var r := Feed(Remainder([false] + b), false);
            if bit then Xor(r, ToBits(GENERATOR, 16)) else r
  {
    hide ToBits;
    var w, low := [false] + b + Zeros(8), Zeros(7) + [bit];
    var shifted := b + [false] + Zeros(8);
    assert Feed(w, false) == shifted;
    ShiftStep(w, 9);
    DivideAppend(w, Zeros(8), [false]);
    assert Zeros(8) + [false] == Zeros(9);
    assert Divide(Shift(w, 8), [false]) == Feed(Shift(w, 8), false);
    assert Shift(shifted, 8) == Feed(Shift(w, 8), false);
    assert Xor(shifted, low + Zeros(8)) == b + [bit] + Zeros(8);
    ShiftLinear(shifted, low + Zeros(8), 8);
    RemainderOfBit(bit);
    assert [false] + b + Zeros(8) == ([false] + b) + Zeros(8);
  }

  lemma RemainderOfBit(bit: bool)
    ensures Shift(Zeros(7) + [bit] + Zeros(8), 8) == if bit then ToBits(GENERATOR, 16) else Zeros(16)
  {
    hide ToBits;
    MoveToTop(bit, 7);
    var w := [bit] + Zeros(15);
    DivideAppend(Zeros(7) + [bit] + Zeros(8), Zeros(7), [false]);
    assert Zeros(7) + [false] == Zeros(8);
    assert Divide(w, [false]) == Feed(w, false);
    assert Xor(Zeros(16), ToBits(GENERATOR, 16)) == ToBits(GENERATOR, 16);
    assert w[1..] + [false] == Zeros(16);
  }

  lemma {:induction false} MoveToTop(bit: bool, k: nat)
    requires k <= 15
    ensures Shift(Zeros(k) + [bit] + Zeros(15 - k), k) == [bit] + Zeros(15)
    decreases k
  {
    var w := Zeros(k) + [bit] + Zeros(15 - k);
    if k == 0 {
      assert w == [bit] + Zeros(15);
      assert Zeros(0) == [];
    } else {
      ShiftStep(w, k);
      MoveToTop(bit, k - 1);
      assert Feed(w, false) == Zeros(k - 1) + [bit] + Zeros(16 - k);
    }
  }

  lemma {:induction false} TableHoldsRemainders(i: byte)
    ensures ToBits(TableEntry(i), 16) == Remainder(ToBits(i, 8))
    decreases i
  {
    if i == 0 {
      FirstEntries();
      ZeroBits(16);
      ZeroBits(8);
      assert Zeros(8) + Zeros(8) == Zeros(16);
      ShiftZero(Zeros(16), 8);
    } else {
      var h := i / 2;
      Powers();
      TableHoldsRemainders(h);
      EntryDoubles(h);
      TopBit(h, 8);
      RemainderDoubles(ToBits(h, 7), i % 2 == 1);
      FeedNatBits(TableEntry(h));
      AddGeneratorBits(TableEntry(2 * h));
      assert i == if i % 2 == 1 then 2 * h + 1 else 2 * h;
    }
  }

  // ----- The table-driven CRC refines the bit-serial one -----

  /** One turn of the loop: the entry for the high byte of the register combined with the
      next byte, added to the low byte moved up. */
  function TableStep(crc: seq<bool>, b: byte): (r: seq<bool>)
    requires Register(crc)
    ensures Register(r)
  {
    Powers();
    var index := ToNat(Xor(crc[..8], ToBits(b, 8)));
    Xor(ToBits(TableEntry(index), 16), crc[8..] + Zeros(8))
  }

  lemma TableStepDivides(crc: seq<bool>, b: byte)
    requires Register(crc)
    ensures TableStep(crc, b) == Divide(crc, ToBits(b, 8))
  {
    hide ToBits, ToNat, Divide, TableEntry;
    Powers();
    var hi, low := Xor(crc[..8], ToBits(b, 8)), Zeros(8) + crc[8..];
    BitsNatBits(hi);
    TableHoldsRemainders(ToNat(hi));
    AbsorbByte(crc, ToBits(b, 8));
    assert Xor(crc, ToBits(b, 8) + Zeros(8)) == Xor(hi + Zeros(8), low);
    ShiftLinear(hi + Zeros(8), low, 8);
    Absorb(low, low, 8);
    assert low[..8] == Zeros(8);
    assert Xor(low, low) == Zeros(16);
    ShiftZero(Zeros(16), 8);
    assert Xor(Zeros(16), low[8..] + Zeros(8)) == crc[8..] + Zeros(8);
  }

  method ComputeCrc16(data: seq<byte>) returns (crc: seq<bool>)
    ensures crc == Crc16(data)
  {
    crc := ToBits(0xFFFF, 16);
    assert data[0..] == data;
    var at: nat, len: nat := 0, |data|;
    while len > 0
      invariant at + len == |data|
      invariant Register(crc)
      invariant Divide(crc, BitString(data[at..])) == Crc16(data)
    {
      len := len - 1;
      FirstByte(crc, data[at..]);
      crc := TableStep(crc, data[at]);
      at := at + 1;
    }
  }

  lemma FirstByte(crc: seq<bool>, data: seq<byte>)
    requires Register(crc) && data != []
    ensures Divide(crc, BitString(data)) == Divide(TableStep(crc, data[0]), BitString(data[1..]))
  {
    TableStepDivides(crc, data[0]);
    DivideAppend(crc, ToBits(data[0], 8), BitString(data[1..]));
  }

  // ----- What the checksum detects -----

  /** The two trailer bytes bring the register to zero exactly when they are the CRC,
      high byte first. */
  lemma Residue(data: seq<byte>, hi: byte, lo: byte)
    ensures Crc16(data + [hi, lo]) == Zeros(16) <==> Crc16(data) == ToBits(hi, 8) + ToBits(lo, 8)
  {
    var r, w := Crc16(data), ToBits(hi, 8) + ToBits(lo, 8);
    BitStringAppend(data, [hi, lo]);
    assert BitString([hi, lo]) == w;
    DivideAppend(ToBits(0xFFFF, 16), BitString(data), w);
    AbsorbWord(r, w);
    ShiftZero(Xor(r, w), 16);
    XorZero(r, w);
  }

  lemma XorZero(a: seq<bool>, b: seq<bool>)
    requires |a| == |b|
    ensures Xor(a, b) == Zeros(|a|) <==> a == b
  {
    if Xor(a, b) == Zeros(|a|) {
      forall i | 0 <= i < |a|
        ensures a[i] == b[i]
      {
        assert !Xor(a, b)[i];
      }
    }
    assert Xor(a, a) == Zeros(|a|);
  }

  lemma {:induction false} BitStringAppend(x: seq<byte>, y: seq<byte>)
    ensures BitString(x + y) == BitString(x) + BitString(y)
  {
    if x == [] {
      assert x + y == y;
    } else {
      assert (x + y)[1..] == x[1..] + y;
      BitStringAppend(x[1..], y);
    }
  }

  lemma {:induction false} BitStringInjective(x: seq<byte>, y: seq<byte>)
    requires |x| == |y| && BitString(x) == BitString(y)
    ensures x == y
  {
    if x != [] {
      Powers();
      assert ToBits(x[0], 8) == BitString(x)[..8] == ToBits(y[0], 8);
      NatBitsNat(x[0], 8);
      NatBitsNat(y[0], 8);
      assert BitString(x[1..]) == BitString(x)[8..] == BitString(y[1..]);
      BitStringInjective(x[1..], y[1..]);
    }
  }

  /** An error pattern confined to sixteen consecutive bits leaves a nonzero register. */
  lemma ErrorPattern(e: seq<bool>, start: nat, hit: nat)
    requires hit < |e| && e[hit]
    requires forall i :: 0 <= i < |e| && e[i] ==> start <= i < start + 16
    ensures Divide(Zeros(16), e) != Zeros(16)
  {
    hide Divide;
    var long, tail := e + Zeros(16), |e| - start;
    var w := long[start..start + 16];
    assert w[hit - start];
    WordPattern(start, w, tail);
    Window(long, start);
    DivideAppend(Zeros(16), e, Zeros(16));
    ShiftZero(Divide(Zeros(16), e), 16);
  }

  lemma Window(long: seq<bool>, start: nat)
    requires start + 16 <= |long|
    requires forall i :: 0 <= i < |long| && long[i] ==> start <= i < start + 16
    ensures long == Zeros(start) + long[start..start + 16] + Zeros(|long| - start - 16)
  {
  }

  lemma WordPattern(p: nat, w: seq<bool>, q: nat)
    requires Register(w) && w != Zeros(16)
    ensures Divide(Zeros(16), Zeros(p) + w + Zeros(q)) != Zeros(16)
  {
    hide Divide;
    DivideAppend(Zeros(16), Zeros(p) + w, Zeros(q));
    DivideAppend(Zeros(16), Zeros(p), w);
    ShiftZero(Zeros(16), p);
    AbsorbWord(Zeros(16), w);
    assert Xor(Zeros(16), w) == w;
    ShiftZero(w, 16);
    ShiftZero(Divide(Zeros(16), w), q);
  }

  /** Two different strings of equal length, of any length, whose bits differ only within
      sixteen consecutive positions have different checksums. */
  lemma BurstDetected(x: seq<byte>, y: seq<byte>, start: nat)
    requires |x| == |y| && x != y
    requires forall i :: 0 <= i < 8 * |x| && BitString(x)[i] != BitString(y)[i] ==> start <= i < start + 16
    ensures Crc16(x) != Crc16(y)
  {
    hide Divide, BitString, ToBits;
    var v, w, init := BitString(x), BitString(y), ToBits(0xFFFF, 16);
    if v == w { BitStringInjective(x, y); }
    var hit :| 0 <= hit < |v| && v[hit] != w[hit];
    ErrorPattern(Xor(v, w), start, hit);
    DivideLinear(init, init, v, w);
    assert Xor(init, init) == Zeros(16);
    XorZero(Crc16(x), Crc16(y));
  }

  /** In particular, no change confined to two neighbouring bytes goes unnoticed. */
  lemma TwoBytesDetected(before: seq<byte>, x: seq<byte>, y: seq<byte>, after: seq<byte>)
    requires |x| == |y| <= 2 && x != y
    ensures Crc16(before + x + after) != Crc16(before + y + after)
  {
    hide Divide, ToBits, Crc16, BitString;
    var v, w := before + x + after, before + y + after;
    BitStringAppend(before + x, after);
    BitStringAppend(before, x);
    BitStringAppend(before + y, after);
    BitStringAppend(before, y);
    assert x == v[|before|..|before| + |x|] && y == w[|before|..|before| + |x|];
    BurstDetected(v, w, 8 * |before|);
  }

  function OddOnes(w: seq<bool>): bool {
    if w == [] then false else w[0] != OddOnes(w[1..])
  }

  lemma {:induction false} OddOnesAppend(v: seq<bool>, w: seq<bool>)
    ensures OddOnes(v + w) == (OddOnes(v) != OddOnes(w))
  {
    if v == [] {
      assert v + w == w;
    } else {
      assert (v + w)[1..] == v[1..] + w;
      OddOnesAppend(v[1..], w);
    }
  }

  lemma {:induction false} OddOnesXor(v: seq<bool>, w: seq<bool>)
    requires |v| == |w|
    ensures OddOnes(Xor(v, w)) == (OddOnes(v) != OddOnes(w))
  {
    if v != [] {
      assert Xor(v, w)[1..] == Xor(v[1..], w[1..]);
      OddOnesXor(v[1..], w[1..]);
    }
  }

  lemma {:induction false} OddOnesZeros(k: nat)
    ensures !OddOnes(Zeros(k))
  {
    if k != 0 {
      assert Zeros(k)[1..] == Zeros(k - 1);
      OddOnesZeros(k - 1);
    }
  }

  lemma GeneratorIsOdd()
    ensures OddOnes(ToBits(GENERATOR, 16))
  {
    hide ToBits;
    GeneratorBits();
    OddOnesZeros(3);
    OddOnesZeros(4);
    OddOnesZeros(6);
    var g3 := Zeros(3) + [true];
    var g6 := g3 + Zeros(6) + [true];
    OddOnesAppend(Zeros(3), [true]);
    OddOnesAppend(g3, Zeros(6));
    OddOnesAppend(g3 + Zeros(6), [true]);
    OddOnesAppend(g6, Zeros(4));
    OddOnesAppend(g6 + Zeros(4), [true]);
  }

  /** The register carries the parity of everything fed into it, because the full
      generator has an even number of terms. */
  lemma {:induction false} DivideParity(r: seq<bool>, bits: seq<bool>)
    requires Register(r)
    ensures OddOnes(Divide(r, bits)) == (OddOnes(r) != OddOnes(bits))
    decreases |bits|
  {
    if bits != [] {
      var s := r[1..] + [false];
      OddOnesAppend(r[1..], [false]);
      OddOnesXor(s, ToBits(GENERATOR, 16));
      GeneratorIsOdd();
      DivideParity(Feed(r, bits[0]), bits[1..]);
    }
  }

  /** Any odd number of flipped bits is detected, wherever they are. */
  lemma OddErrorsDetected(x: seq<byte>, y: seq<byte>)
    requires |x| == |y| && OddOnes(Xor(BitString(x), BitString(y)))
    ensures Crc16(x) != Crc16(y)
  {
    OddOnesXor(BitString(x), BitString(y));
    DivideParity(ToBits(0xFFFF, 16), BitString(x));
    DivideParity(ToBits(0xFFFF, 16), BitString(y));
  }
}
