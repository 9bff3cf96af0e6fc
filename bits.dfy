/** Bitwise exclusive or on integers, one bit at a time: Go's ^ on bytes and
    on the 32-bit CRC register. */
module Bits {
  import opened Bytes

  function Pow2(k: nat): (p: nat)
    ensures p >= 1
  {
    if k == 0 then 1 else 2 * Pow2(k - 1)
  }

  lemma {:induction false} Pow2Sum(a: nat, b: nat)
    ensures Pow2(a + b) == Pow2(a) * Pow2(b)
    decreases a
  {
    if a > 0 {
      Pow2Sum(a - 1, b);
    }
  }

  lemma Pow2Of32()
    ensures Pow2(32) == 0x1_0000_0000
  {
    assert Pow2(8) == 0x100;
    Pow2Sum(8, 8);
    Pow2Sum(16, 16);
  }

  /** The exclusive or of the low k bits of a and b. */
  function XorBits(a: nat, b: nat, k: nat): (r: nat)
    ensures r < Pow2(k)
    decreases k
  {
    if k == 0 then 0 else 2 * XorBits(a / 2, b / 2, k - 1) + (a + b) % 2
  }

  /** The low k bits of a. */
  function LowBits(a: nat, k: nat): (r: nat)
    decreases k
  {
    if k == 0 then 0 else 2 * LowBits(a / 2, k - 1) + a % 2
  }

  lemma {:induction false} LowBitsSmall(a: nat, k: nat)
    requires a < Pow2(k)
    ensures LowBits(a, k) == a
    decreases k
  {
    if k > 0 {
      LowBitsSmall(a / 2, k - 1);
    }
  }

  lemma HalfOf(h: nat, bit: nat)
    requires bit < 2
    ensures (2 * h + bit) / 2 == h && (2 * h + bit) % 2 == bit
  {
  }

  lemma ParityXor(a: nat, b: nat, x: nat)
    requires x % 2 == (a + b) % 2
    ensures (x + b) % 2 == a % 2
  {
  }

  /** XORing twice with the same b leaves the low k bits of a. */
  lemma {:induction false} XorBitsUndo(a: nat, b: nat, k: nat)
    ensures XorBits(XorBits(a, b, k), b, k) == LowBits(a, k)
    decreases k
  {
    if k > 0 {
      var bit := (a + b) % 2;
      var x' := XorBits(a / 2, b / 2, k - 1);
      var x := 2 * x' + bit;
      HalfOf(x', bit);
      ParityXor(a, b, x);
      XorBitsUndo(a / 2, b / 2, k - 1);
      calc {
        XorBits(XorBits(a, b, k), b, k);
        XorBits(x, b, k);
        2 * XorBits(x', b / 2, k - 1) + a % 2;
        LowBits(a, k);
      }
    }
  }

  /** Go's ^ on two bytes. */
  function Xor8(a: byte, b: byte): (x: byte) {
    assert Pow2(8) == 0x100;
    XorBits(a as nat, b as nat, 8) as byte
  }

  /** XOR with the same byte twice is the identity. */
  lemma Xor8Undo(a: byte, b: byte)
    ensures Xor8(Xor8(a, b), b) == a
  {
    assert Pow2(8) == 0x100;
    XorBitsUndo(a as nat, b as nat, 8);
    LowBitsSmall(a as nat, 8);
  }
}
