/** Machine words as their bits, most significant first. */
module Bits {

  function Zeros(k: nat): (w: seq<bool>)
    ensures |w| == k && forall i :: 0 <= i < k ==> !w[i]
  {
    seq(k, _ => false)
  }

  function Xor(a: seq<bool>, b: seq<bool>): (c: seq<bool>)
    requires |a| == |b|
    ensures |c| == |a| && forall i :: 0 <= i < |a| ==> c[i] == (a[i] != b[i])
  {
    seq(|a|, i requires 0 <= i < |a| => a[i] != b[i])
  }

  /** The low k bits of n. */
  function ToBits(n: nat, k: nat): (w: seq<bool>)
    ensures |w| == k
  {
    if k == 0 then [] else ToBits(n / 2, k - 1) + [n % 2 == 1]
  }

  function ToNat(w: seq<bool>): (n: nat)
    ensures n < Power2(|w|)
  {
    if w == [] then 0 else 2 * ToNat(w[..|w| - 1]) + if w[|w| - 1] then 1 else 0
  }

  function Power2(k: nat): (p: nat)
    ensures p > 0
  {
    if k == 0 then 1 else 2 * Power2(k - 1)
  }

  lemma Powers()
    ensures Power2(7) == 0x80 && Power2(8) == 0x100
    ensures Power2(15) == 0x8000 && Power2(16) == 0x1_0000
  {
    assert Power2(4) == 16;
    assert Power2(8) == 2 * Power2(7) == 4 * Power2(6) == 8 * Power2(5) == 16 * Power2(4);
    assert Power2(12) == 2 * Power2(11) == 4 * Power2(10) == 8 * Power2(9) == 16 * Power2(8);
    assert Power2(16) == 2 * Power2(15) == 4 * Power2(14) == 8 * Power2(13) == 16 * Power2(12);
  }

  lemma {:induction false} NatBitsNat(n: nat, k: nat)
    requires n < Power2(k)
    ensures ToNat(ToBits(n, k)) == n
  {
    if k != 0 {
      NatBitsNat(n / 2, k - 1);
      assert ToBits(n, k)[..k - 1] == ToBits(n / 2, k - 1);
    }
  }

  lemma {:induction false} BitsNatBits(w: seq<bool>)
    ensures ToBits(ToNat(w), |w|) == w
  {
    if w != [] {
      BitsNatBits(w[..|w| - 1]);
    }
  }

  /** The top bit of a k-bit number and the bits below it. */
  lemma {:induction false} TopBit(n: nat, k: nat)
    requires 0 < k && n < Power2(k)
    ensures ToBits(n, k) == [n >= Power2(k - 1)] + ToBits(n, k - 1)
  {
    if k > 1 {
      TopBit(n / 2, k - 1);
    }
  }

  lemma {:induction false} TopOff(n: nat, k: nat)
    ensures ToBits(n + Power2(k), k) == ToBits(n, k)
  {
    if k != 0 {
      TopOff(n / 2, k - 1);
      assert (n + Power2(k)) / 2 == n / 2 + Power2(k - 1);
    }
  }

  lemma {:induction false} ZeroBits(k: nat)
    ensures ToBits(0, k) == Zeros(k)
  {
    if k != 0 {
      ZeroBits(k - 1);
      assert Zeros(k - 1) + [false] == Zeros(k);
    }
  }

  lemma JoinBit(h: nat, bit: nat, j: nat)
    requires bit < 2
    ensures ToBits(2 * h + bit, j + 1) == ToBits(h, j) + [bit == 1]
  {
  }

  function Shl(n: nat, k: nat): nat {
    if k == 0 then n else 2 * Shl(n, k - 1)
  }

  lemma {:induction false} JoinShifted(h: nat, l: nat, j: nat, k: nat)
    requires l < Power2(k)
    ensures ToBits(Shl(h, k) + l, j + k) == ToBits(h, j) + ToBits(l, k)
  {
    if k != 0 {
      var half := l / 2;
      assert l == 2 * half + l % 2;
      JoinShifted(h, half, j, k - 1);
      JoinBit(Shl(h, k - 1) + half, l % 2, j + k - 1);
      assert Shl(h, k) + l == 2 * (Shl(h, k - 1) + half) + l % 2;
      assert ToBits(l, k) == ToBits(half, k - 1) + [l % 2 == 1];
    }
  }

  lemma JoinBits(h: nat, l: nat, j: nat, k: nat)
    requires k == 4 || k == 6
    requires l < if k == 4 then 0x10 else 0x40
    ensures ToBits((if k == 4 then 0x10 else 0x40) * h + l, j + k) == ToBits(h, j) + ToBits(l, k)
  {
    SmallShifts(h);
    hide ToBits, Power2, Shl;
    JoinShifted(h, l, j, k);
  }

  lemma SmallShifts(h: nat)
    ensures Power2(4) == 0x10 && Power2(6) == 0x40
    ensures Shl(h, 4) == 0x10 * h && Shl(h, 6) == 0x40 * h
  {
    assert Power2(2) == 4 && Power2(4) == 2 * Power2(3) == 4 * Power2(2);
    assert Power2(6) == 2 * Power2(5) == 4 * Power2(4);
    assert Shl(h, 2) == 2 * Shl(h, 1) == 4 * Shl(h, 0) == 4 * h;
    assert Shl(h, 4) == 2 * Shl(h, 3) == 4 * Shl(h, 2);
    assert Shl(h, 6) == 2 * Shl(h, 5) == 4 * Shl(h, 4);
  }
}
