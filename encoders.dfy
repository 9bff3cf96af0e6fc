/** The repeating-key XOR cipher of pnglib/encoders.go. One function serves
    as both encoder and decoder. */
module Encoders {
  import opened Bytes
  import opened Results
  import opened Bits

  /** The key byte input byte i is XORed with: the key repeats. */
  function KeyByte(key: seq<byte>, i: nat): (k: byte)
    requires |key| > 0
  {
    key[i % |key|]
  }

  /** The reference transform: byte i is XORed with key byte i mod |key|. */
  function Xor(input: seq<byte>, key: seq<byte>): (out: seq<byte>)
    requires |input| == 0 || |key| > 0
  {
    seq(|input|, i requires 0 <= i < |input| => Xor8(input[i], KeyByte(key, i)))
  }

  /** Applying the transform twice with the same key gives the input back. */
  lemma XorInvolution(input: seq<byte>, key: seq<byte>)
    requires |input| == 0 || |key| > 0
    ensures Xor(Xor(input, key), key) == input
  {
    var once := Xor(input, key);
    forall i | 0 <= i < |input|
      ensures Xor(once, key)[i] == input[i]
    {
      Xor8Undo(input[i], KeyByte(key, i));
    }
  }

  /** A worked example: "AB" XORed with the one-byte key "K" is 0A 09. */
  lemma XorBytesExample()
    ensures Xor8(0x41, 0x4B) == 0x0A && Xor8(0x42, 0x4B) == 0x09
  {
    // one bit at a time: XorBits(a, b, k) is twice the XOR of the halves
    // over k - 1 bits, plus the XOR of the low bits
    assert XorBits(0, 0, 1) == 0;
    assert XorBits(1, 1, 2) == 0;
    assert XorBits(2, 2, 3) == 0;
    assert XorBits(4, 4, 4) == 0;
    assert XorBits(8, 9, 5) == 1;
    assert XorBits(16, 18, 6) == 2;
    assert XorBits(32, 37, 7) == 5;
    assert XorBits(33, 37, 7) == 4;
    assert XorBits(0x41, 0x4B, 8) == 0x0A;
    assert XorBits(0x42, 0x4B, 8) == 0x09;
  }

  /** The same example on the whole sequence, and the way back. */
  lemma XorExample()
    ensures Xor([0x41, 0x42], [0x4B]) == [0x0A, 0x09]
    ensures Xor([0x0A, 0x09], [0x4B]) == [0x41, 0x42]
  {
    XorBytesExample();
    var enc := Xor([0x41, 0x42], [0x4B]);
    assert enc[0] == Xor8(0x41, 0x4B) && enc[1] == Xor8(0x42, 0x4B);
    assert enc == [0x0A, 0x09];
    XorInvolution([0x41, 0x42], [0x4B]);
  }

  /** encodeDecode as a value: the transform, or the panic an empty key
      causes on a nonempty input. */
  function EncodeDecodeSpec(input: seq<byte>, key: seq<byte>): (r: Result<seq<byte>>) {
    if |input| == 0 || |key| > 0 then Ok(Xor(input, key)) else Err(EmptyKey)
  }

  /** encodeDecode: fills a fresh zeroed array; `bArr[i] += ...` on a zero
      byte is a plain store. With an empty key the first `i % len(key)`
      panics, so an empty input is the only one an empty key lets through. */
  method EncodeDecode(input: seq<byte>, key: seq<byte>) returns (r: Result<seq<byte>>)
    ensures r.Ok? <==> |input| == 0 || |key| > 0
    ensures r.Ok? ==> |r.value| == |input|
    ensures r.Ok? ==> forall i :: 0 <= i < |input| ==> r.value[i] == Xor8(input[i], KeyByte(key, i))
    ensures r.Err? ==> r.error == EmptyKey
  {
    var bArr := new byte[|input|](_ => 0);
    var i := 0;
    while i < |input|
      invariant 0 <= i <= |input|
      invariant i == 0 || |key| > 0
      invariant forall j :: 0 <= j < i ==> bArr[j] == Xor8(input[j], KeyByte(key, j))
      invariant forall j :: i <= j < |input| ==> bArr[j] == 0
    {
      if |key| == 0 {
        return Err(EmptyKey);
      }
      var x := Xor8(input[i], KeyByte(key, i));
      bArr[i] := bArr[i] + x;
      assert bArr[i] == x;
      i := i + 1;
    }
    return Ok(bArr[..]);
  }

  /** XorEncode: the same transform. */
  method XorEncode(decode: seq<byte>, key: seq<byte>) returns (r: Result<seq<byte>>)
    ensures r.Ok? <==> |decode| == 0 || |key| > 0
    ensures r.Ok? ==> r.value == Xor(decode, key)
    ensures r.Err? ==> r.error == EmptyKey
  {
    r := EncodeDecode(decode, key);
  }

  /** XorDecode: the same transform again, so it undoes XorEncode (XorInvolution). */
  method XorDecode(encode: seq<byte>, key: seq<byte>) returns (r: Result<seq<byte>>)
    ensures r.Ok? <==> |encode| == 0 || |key| > 0
    ensures r.Ok? ==> r.value == Xor(encode, key)
    ensures r.Err? ==> r.error == EmptyKey
  {
    r := EncodeDecode(encode, key);
  }
}
