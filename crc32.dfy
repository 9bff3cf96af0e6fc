/** CRC-32 with the IEEE polynomial (hash/crc32.ChecksumIEEE), written as the
    bitwise form of the algorithm in section 3.4 of RFC 2083: reflected
    polynomial 0xEDB88320, register preset to all ones, result inverted.
    The register is an integer below 2^32. */
module Crc32 {
  import opened Bytes
  import opened Bits

  const Polynomial: nat := 0xEDB8_8320
  const AllOnes: nat := 0xFFFF_FFFF

  /** One bit step: shift the register right, folding in the polynomial
      when the bit shifted out, XORed with the next data bit, is set. */
  function Shift(c: nat, carry: bool): (r: nat) {
    if carry then XorBits(c / 2, Polynomial, 32) else c / 2
  }

  /** The low k bits of b shifted through the register, low bit first; the
      same as XORing b into the register and shifting k times. */
  function ShiftIn(c: nat, b: nat, k: nat): (r: nat)
    decreases k
  {
    if k == 0 then c else ShiftIn(Shift(c, (c + b) % 2 == 1), b / 2, k - 1)
  }

  /** One step of update_crc: fold one byte into the register. */
  function UpdateByte(c: nat, b: byte): (r: nat) {
    ShiftIn(c, b as nat, 8)
  }

  function Update(c: nat, s: seq<byte>): (r: nat)
    decreases |s|
  {
    if s == [] then c else Update(UpdateByte(c, s[0]), s[1..])
  }

  /** The register after the bytes, inverted; XOR with all ones is the
      complement of the low 32 bits. */
  function ChecksumIEEE(s: seq<byte>): (crc: u32) {
    (AllOnes - Update(AllOnes, s) % 0x1_0000_0000) as u32
  }

  /** The register stays a 32-bit value through every byte. */
  lemma {:induction false} UpdateBounded(c: nat, s: seq<byte>)
    requires c < 0x1_0000_0000
    ensures Update(c, s) < 0x1_0000_0000
    decreases |s|
  {
    if s != [] {
      ShiftInBounded(c, s[0] as nat, 8);
      UpdateBounded(UpdateByte(c, s[0]), s[1..]);
    }
  }

  lemma {:induction false} ShiftInBounded(c: nat, b: nat, k: nat)
    requires c < 0x1_0000_0000
    ensures ShiftIn(c, b, k) < 0x1_0000_0000
    decreases k
  {
    if k > 0 {
      Pow2Of32();
      ShiftInBounded(Shift(c, (c + b) % 2 == 1), b / 2, k - 1);
    }
  }

  /** The checksum is the final register with every one of its 32 bits
      inverted: the two add up to all ones. */
  lemma ChecksumInverts(s: seq<byte>)
    ensures ChecksumIEEE(s) as int + Update(AllOnes, s) == AllOnes
  {
    UpdateBounded(AllOnes, s);
  }
}
