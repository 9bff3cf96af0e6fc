/** Bytes, fixed-width unsigned integers and their big-endian encodings, as
    encoding/binary writes them with binary.BigEndian. */
module Bytes {

  newtype byte = x: int | 0 <= x < 0x100
  newtype u32 = x: int | 0 <= x < 0x1_0000_0000
  newtype u64 = x: int | 0 <= x < 0x1_0000_0000_0000_0000

  /** The ASCII bytes "PNG" that validate looks for at offsets 1..3. */
  const PNG: seq<byte> := [0x50, 0x4E, 0x47]

  /** The ASCII bytes "IEND", the type string that ends the walk. */
  const IEND: seq<byte> := [0x49, 0x45, 0x4E, 0x44]

  function Min(a: int, b: int): (m: int) { if a <= b then a else b }

  function Max(a: int, b: int): (m: int) { if a <= b then b else a }

  /** n zero bytes: what a freshly made Go slice holds. */
  function Zeros(n: nat): (z: seq<byte>)
    ensures |z| == n
    ensures forall i :: 0 <= i < n ==> z[i] == 0
  {
    seq(n, _ => 0)
  }

  /** The four bytes binary.BigEndian puts for x, most significant first. */
  function BE32(x: u32): (b: seq<byte>)
    ensures |b| == 4
  {
    var q1 := x as int / 0x100;
    var q2 := q1 / 0x100;
    [(q2 / 0x100) as byte, (q2 % 0x100) as byte, (q1 % 0x100) as byte, (x as int % 0x100) as byte]
  }

  /** binary.BigEndian.Uint32: the value of four bytes, most significant first. */
  function FromBE32(b: seq<byte>): (x: u32)
    requires |b| == 4
  {
    (((b[0] as int * 0x100 + b[1] as int) * 0x100 + b[2] as int) * 0x100 + b[3] as int) as u32
  }

  lemma FromBE32BE32(x: u32)
    ensures FromBE32(BE32(x)) == x
  {
    var q1 := x as int / 0x100;
    var q2 := q1 / 0x100;
    assert x as int == q1 * 0x100 + x as int % 0x100;
    assert q1 == q2 * 0x100 + q1 % 0x100;
    assert q2 == (q2 / 0x100) * 0x100 + q2 % 0x100;
  }

  lemma BE32FromBE32(b: seq<byte>)
    requires |b| == 4
    ensures BE32(FromBE32(b)) == b
  {
    var x := FromBE32(b) as int;
    var q2 := b[0] as int * 0x100 + b[1] as int;
    var q1 := q2 * 0x100 + b[2] as int;
    assert x == q1 * 0x100 + b[3] as int;
    assert x / 0x100 == q1;
    assert q1 / 0x100 == q2;
    assert q2 / 0x100 == b[0] as int;
  }

  /** binary.BigEndian.PutUint64: eight bytes, most significant first. */
  function BE64(x: u64): (b: seq<byte>)
    ensures |b| == 8
  {
    BE32((x as int / 0x1_0000_0000) as u32) + BE32((x as int % 0x1_0000_0000) as u32)
  }

  /** binary.BigEndian.Uint64 (binary.Read into a uint64). */
  function FromBE64(b: seq<byte>): (x: u64)
    requires |b| == 8
  {
    (FromBE32(b[..4]) as int * 0x1_0000_0000 + FromBE32(b[4..]) as int) as u64
  }

  /** Reading eight bytes as a big-endian uint64 and putting it back keeps
      the bytes and their order. */
  lemma {:induction false} BE64FromBE64(b: seq<byte>)
    requires |b| == 8
    ensures BE64(FromBE64(b)) == b
  {
    var hi, lo := FromBE32(b[..4]), FromBE32(b[4..]);
    var x := FromBE64(b) as int;
    assert x == hi as int * 0x1_0000_0000 + lo as int;
    assert x / 0x1_0000_0000 == hi as int;
    assert x % 0x1_0000_0000 == lo as int;
    BE32FromBE32(b[..4]);
    BE32FromBE32(b[4..]);
    assert b == b[..4] + b[4..];
  }
}
