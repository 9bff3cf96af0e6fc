/** The value side of pnglib/commands.go: the chunk record and its byte
    image (section 3.2 of RFC 2083: length, type, data, CRC, integers big
    endian), how a chunk is decoded from a buffer at a cursor, how a new one
    is built, how its type code is shown and classified, the signature
    check, and the chunk walk. The class that drives these step by step is
    in module Commands. */
module Chunks {
  import opened Bytes
  import opened Results
  import opened ByteReader
  import Crc32

  /** Chunk: Size and CRC as stored; Type as the big-endian uint32 of the
      four type bytes. */
  datatype Chunk = Chunk(size: u32, typ: u32, data: seq<byte>, crc: u32)

  /** marshalData: Size, Type, Data, CRC, in that order. */
  function Marshal(c: Chunk): (b: seq<byte>)
    ensures |b| == 12 + |c.data|
    ensures b[..4] == BE32(c.size) && b[4..8] == BE32(c.typ)
    ensures b[8..8 + |c.data|] == c.data && b[8 + |c.data|..] == BE32(c.crc)
  {
    BE32(c.size) + BE32(c.typ) + c.data + BE32(c.crc)
  }

  /** createChunkSize: uint32(len(Data)), which wraps past 2^32 - 1. */
  function ChunkSize(data: seq<byte>): (size: u32)
    ensures |data| < 0x1_0000_0000 ==> size as int == |data|
  {
    (|data| % 0x1_0000_0000) as u32
  }

  /** createChunkCRC: CRC-32 of the four type bytes followed by the data. */
  function ChunkCrc(typ: u32, data: seq<byte>): (crc: u32) {
    Crc32.ChecksumIEEE(BE32(typ) + data)
  }

  /** A chunk whose Size and CRC agree with its type and data. */
  predicate Consistent(c: Chunk) {
    c.size as int == |c.data| && c.crc == ChunkCrc(c.typ, c.data)
  }

  /** The insert paths: Data and Type from the caller, Size and CRC derived. */
  function MakeChunk(typ: u32, data: seq<byte>): (c: Chunk)
    ensures c.typ == typ && c.data == data
    ensures c.size as int == |data| % 0x1_0000_0000
    ensures |data| < 0x1_0000_0000 ==> Consistent(c)
  {
    Chunk(ChunkSize(data), typ, data, ChunkCrc(typ, data))
  }

  /** strToInt: binary.BigEndian.Uint32 of the string's bytes, which reads
      the first four and panics on fewer. */
  function StrToInt(s: seq<byte>): (r: Result<u32>)
    ensures r.Ok? <==> |s| >= 4
    ensures r.Ok? ==> BE32(r.value) == s[..4]
    ensures r.Err? ==> r.error == ShortTypeCode
  {
    if |s| < 4 then Err(ShortTypeCode)
    else
      BE32FromBE32(s[..4]);
      Ok(FromBE32(s[..4]))
  }

  // ---------------------------------------------------------------------
  // Decoding one chunk (readChunk and its four field readers)

  /** The chunk at pos and the cursor after it; the first field that runs
      out of input names the error. The CRC is taken as stored, never checked. */
  function ParseChunk(s: seq<byte>, pos: nat): (r: Result<(Chunk, nat)>)
    ensures r.Ok? ==> r.value.1 == pos + 12 + r.value.0.size as int <= |s|
    ensures r.Ok? ==> r.value.0.size as int == |r.value.0.data|
  {
    if pos + 4 > |s| then Err(Eof(SizeField))
    else
      var size := FromBE32(s[pos..pos + 4]) as nat;
      if pos + 8 > |s| then Err(Eof(TypeField))
      else if pos + 8 + size > |s| then Err(Eof(DataField))
      else if pos + 12 + size > |s| then Err(Eof(CrcField))
      else
        var typ := FromBE32(s[pos + 4..pos + 8]);
        var data := s[pos + 8..pos + 8 + size];
        var crc := FromBE32(s[pos + 8 + size..pos + 12 + size]);
        Ok((Chunk(size as u32, typ, data, crc), pos + 12 + size))
  }

  /** readChunk fails exactly when fewer than 4, 4, Size or 4 bytes remain
      for the field it is reading, and then names that field. */
  lemma ParseChunkOutcome(s: seq<byte>, pos: nat)
    ensures pos + 4 > |s| ==> ParseChunk(s, pos) == Err(Eof(SizeField))
    ensures pos + 4 <= |s| < pos + 8 ==> ParseChunk(s, pos) == Err(Eof(TypeField))
    ensures pos + 8 <= |s| ==>
              var size := FromBE32(s[pos..pos + 4]) as int;
              (|s| < pos + 8 + size ==> ParseChunk(s, pos) == Err(Eof(DataField))) &&
              (pos + 8 + size <= |s| < pos + 12 + size ==> ParseChunk(s, pos) == Err(Eof(CrcField))) &&
              (pos + 12 + size <= |s| <==> ParseChunk(s, pos).Ok?)
  {
  }

  /** The fields of a decoded chunk, read off the buffer. */
  lemma ParseChunkFields(s: seq<byte>, pos: nat)
    requires ParseChunk(s, pos).Ok?
    ensures var (c, next) := ParseChunk(s, pos).value;
            && c.size == FromBE32(s[pos..pos + 4])
            && c.typ == FromBE32(s[pos + 4..pos + 8])
            && c.data == s[pos + 8..pos + 8 + c.size as int]
            && c.crc == FromBE32(s[pos + 8 + c.size as int..next])
  {
  }

  /** A slice of a window of s is a slice of s. */
  lemma SliceWithin(s: seq<byte>, p: nat, m: seq<byte>, i: nat, j: nat)
    requires p + |m| <= |s| && s[p..p + |m|] == m && i <= j <= |m|
    ensures s[p + i..p + j] == m[i..j]
  {
    forall k | 0 <= k < j - i
      ensures s[p + i..p + j][k] == m[i..j][k]
    {
      assert m[i + k] == s[p..p + |m|][i + k];
    }
  }

  /** Round trip: wherever a buffer holds the image of a chunk whose Size is
      its data length, decoding there gives back that chunk and the cursor
      just past it. */
  lemma {:induction false} ParseMarshalled(s: seq<byte>, pos: nat, c: Chunk)
    requires c.size as int == |c.data|
    requires pos + 12 + |c.data| <= |s| && s[pos..pos + 12 + |c.data|] == Marshal(c)
    ensures ParseChunk(s, pos) == Ok((c, pos + 12 + |c.data|))
  {
    var p, n := pos, |c.data|;
    var m := Marshal(c);
    SliceWithin(s, p, m, 0, 4);
    SliceWithin(s, p, m, 4, 8);
    SliceWithin(s, p, m, 8, 8 + n);
    SliceWithin(s, p, m, 8 + n, 12 + n);
    FromBE32BE32(c.size);
    FromBE32BE32(c.typ);
    FromBE32BE32(c.crc);
    ParseChunkOutcome(s, p);
    ParseChunkFields(s, p);
    var r := ParseChunk(s, p);
    assert r.value.0 == c;
  }

  /** The same round trip for a chunk marshalled between any two byte strings. */
  lemma MarshalThenParse(pre: seq<byte>, c: Chunk, post: seq<byte>)
    requires c.size as int == |c.data|
    ensures ParseChunk(pre + Marshal(c) + post, |pre|) == Ok((c, |pre| + 12 + |c.data|))
  {
    var s := pre + Marshal(c) + post;
    assert s[|pre|..|pre| + 12 + |c.data|] == Marshal(c);
    ParseMarshalled(s, |pre|, c);
  }

  /** The other direction: a decoded chunk marshals back to exactly the span
      it was read from. */
  lemma {:induction false} ParseThenMarshal(s: seq<byte>, pos: nat)
    requires ParseChunk(s, pos).Ok?
    ensures var (c, next) := ParseChunk(s, pos).value; Marshal(c) == s[pos..next]
  {
    var (c, next) := ParseChunk(s, pos).value;
    var n := |c.data|;
    ParseChunkFields(s, pos);
    BE32FromBE32(s[pos..pos + 4]);
    BE32FromBE32(s[pos + 4..pos + 8]);
    BE32FromBE32(s[pos + 8 + n..next]);
    assert BE32(c.size) == s[pos..pos + 4];
    assert BE32(c.typ) == s[pos + 4..pos + 8];
    assert BE32(c.crc) == s[pos + 8 + n..next];
    assert s[pos..next] == s[pos..pos + 4] + s[pos + 4..pos + 8] + s[pos + 8..pos + 8 + n] + s[pos + 8 + n..next];
  }

  // ---------------------------------------------------------------------
  // validate

  /** validate: read eight bytes as a big-endian uint64, put them back with
      PutUint64, and compare bytes 1..3 with "PNG". */
  function CheckSignature(s: seq<byte>, pos: nat): (r: Result<()>) {
    match Take(s, pos, 8, Signature)
    case Err(e) => Err(e)
    case Ok(header) =>
      var bArr := BE64(FromBE64(header));
      if bArr[1..4] != PNG then Err(NotPng) else Ok(())
  }

  /** validate accepts exactly the buffers with at least eight bytes left
      whose bytes 1..3 are "PNG"; the round trip through uint64 keeps the order. */
  lemma ValidateAccepts(s: seq<byte>, pos: nat)
    ensures CheckSignature(s, pos) ==
      if pos + 8 > |s| then Err(Eof(Signature))
      else if s[pos + 1..pos + 4] != PNG then Err(NotPng)
      else Ok(())
  {
    if pos + 8 <= |s| {
      var header := s[pos..pos + 8];
      assert Take(s, pos, 8, Signature) == Ok(header);
      BE64FromBE64(header);
      assert header[1..4] == s[pos + 1..pos + 4];
    }
  }

  /** Any buffer that starts with the canonical signature 89 50 4E 47 0D 0A 1A 0A passes. */
  lemma CanonicalSignaturePasses(s: seq<byte>)
    requires |s| >= 8 && s[..8] == [0x89, 0x50, 0x4E, 0x47, 0x0D, 0x0A, 0x1A, 0x0A]
    ensures CheckSignature(s, 0) == Ok(())
  {
    assert s[1..4] == PNG by {
      assert s[1] == s[..8][1] && s[2] == s[..8][2] && s[3] == s[..8][3];
    }
    ValidateAccepts(s, 0);
  }

  /** Any buffer that starts with eight zero bytes fails with NotPng. */
  lemma ZeroSignatureFails(s: seq<byte>)
    requires |s| >= 8 && s[..8] == Zeros(8)
    ensures CheckSignature(s, 0) == Err(NotPng)
  {
    assert s[1..4] != PNG by {
      assert s[1] == s[..8][1] == Zeros(8)[1] == 0;
      assert s[1..4][0] == s[1];
      assert PNG[0] == 0x50;
    }
    ValidateAccepts(s, 0);
  }

  // ---------------------------------------------------------------------
  // chunkTypeToString and checkCritType

  type nibble = x: int | 0 <= x < 16

  /** fmt.Sprintf("%x", Type): hex digits, no leading zeros, "0" for zero. */
  function HexDigits(x: nat): (d: seq<nibble>)
    decreases x
  {
    if x < 16 then [x] else HexDigits(x / 16) + [x % 16]
  }

  /** The byte two hex digits spell. */
  function Pair(hi: nibble, lo: nibble): (b: byte) {
    (hi as int * 16 + lo as int) as byte
  }

  /** hex.DecodeString whose error is ignored: digit pairs from the left; a
      last unpaired digit is dropped. */
  function DecodeHexPairs(d: seq<nibble>): (b: seq<byte>)
    decreases |d|
  {
    if |d| < 2 then [] else [Pair(d[0], d[1])] + DecodeHexPairs(d[2..])
  }

  /** chunkTypeToString. */
  function TypeToString(t: u32): (ts: seq<byte>) {
    DecodeHexPairs(HexDigits(t as nat))
  }

  lemma HexDigitsTwoBytes(y: nat, b: nat)
    requires y >= 1 && b < 0x100
    ensures HexDigits(y * 0x100 + b) == HexDigits(y) + [b / 16, b % 16]
  {
    var x := y * 0x100 + b;
    assert x / 16 == y * 16 + b / 16 && x % 16 == b % 16;
    assert (y * 16 + b / 16) / 16 == y && (y * 16 + b / 16) % 16 == b / 16;
  }

  lemma {:induction false} HexDigitsLength(x: nat, k: nat)
    requires 1 <= k && x < Pow16(k)
    ensures |HexDigits(x)| <= k
    decreases k
  {
    if x >= 16 {
      HexDigitsLength(x / 16, k - 1);
    }
  }

  function Pow16(k: nat): (p: nat) {
    if k == 0 then 1 else 16 * Pow16(k - 1)
  }

  lemma {:induction false} DecodeHexPairsLength(d: seq<nibble>)
    ensures |DecodeHexPairs(d)| == |d| / 2
    decreases |d|
  {
    if |d| >= 2 {
      DecodeHexPairsLength(d[2..]);
    }
  }

  function High(b: byte): (n: nibble) { b as int / 16 }

  function Low(b: byte): (n: nibble) { b as int % 16 }

  lemma Recombine(b: byte)
    ensures Pair(High(b), Low(b)) == b
  {
  }

  /** The eight hex digits of a type code whose first byte is at least 0x10. */
  lemma HexDigitsWide(t: u32)
    requires t >= 0x1000_0000
    ensures var b := BE32(t);
            HexDigits(t as nat) == [High(b[0]), Low(b[0]), High(b[1]), Low(b[1]), High(b[2]), Low(b[2]), High(b[3]), Low(b[3])]
  {
    var q1 := t as int / 0x100;
    var q2 := q1 / 0x100;
    var q3 := q2 / 0x100;
    var b0, b1, b2, b3 := q3, q2 % 0x100, q1 % 0x100, t as int % 0x100;
    HexDigitsTwoBytes(q1, b3);
    HexDigitsTwoBytes(q2, b2);
    HexDigitsTwoBytes(q3, b1);
    assert q3 * 0x100 + b1 == q2;
    assert q2 * 0x100 + b2 == q1;
    assert q1 * 0x100 + b3 == t as int;
    assert HexDigits(q3) == [b0 / 16, b0 % 16];
    assert HexDigits(t as nat) == [b0 / 16, b0 % 16, b1 / 16, b1 % 16, b2 / 16, b2 % 16, b3 / 16, b3 % 16];
    var b := BE32(t);
    assert b[0] as int == b0 && b[1] as int == b1 && b[2] as int == b2 && b[3] as int == b3;
  }

  lemma DecodeEightDigits(d: seq<nibble>)
    requires |d| == 8
    ensures DecodeHexPairs(d) == [Pair(d[0], d[1]), Pair(d[2], d[3]),
                                  Pair(d[4], d[5]), Pair(d[6], d[7])]
  {
    var d2 := d[2..];
    var d4 := d2[2..];
    var d6 := d4[2..];
    assert d6[2..] == [];
    assert DecodeHexPairs(d6) == [Pair(d[6], d[7])];
    assert DecodeHexPairs(d4) == [Pair(d[4], d[5])] + DecodeHexPairs(d6);
    assert DecodeHexPairs(d2) == [Pair(d[2], d[3])] + DecodeHexPairs(d4);
  }

  lemma TypeToStringWide(t: u32)
    requires t >= 0x1000_0000
    ensures TypeToString(t) == BE32(t)
  {
    var b := BE32(t);
    HexDigitsWide(t);
    DecodeEightDigits(HexDigits(t as nat));
    Recombine(b[0]);
    Recombine(b[1]);
    Recombine(b[2]);
    Recombine(b[3]);
  }

  lemma TypeToStringNarrow(t: u32)
    requires t < 0x1000_0000
    ensures |TypeToString(t)| <= 3
  {
    HexDigitsLength(t as nat, 7);
    DecodeHexPairsLength(HexDigits(t as nat));
  }

  /** The type string is the four big-endian type bytes exactly when the
      first byte is at least 0x10; otherwise it has at most three bytes, so
      it is never "IEND". */
  lemma TypeToStringBigEndian(t: u32)
    ensures TypeToString(t) == BE32(t) <==> t >= 0x1000_0000
    ensures t < 0x1000_0000 ==> |TypeToString(t)| <= 3 && TypeToString(t) != IEND
  {
    if t >= 0x1000_0000 {
      TypeToStringWide(t);
    } else {
      TypeToStringNarrow(t);
    }
  }

  /** A type code whose first byte is below 0x10 is shown shifted: 01 02 03 04 reads as 10 20 30. */
  lemma TypeToStringShifted()
    ensures TypeToString(0x0102_0304) == [0x10, 0x20, 0x30]
  {
    HexDigitsTwoBytes(0x0102_03, 0x04);
    HexDigitsTwoBytes(0x0102, 0x03);
    HexDigitsTwoBytes(0x01, 0x02);
    var d := HexDigits(0x0102_0304);
    assert d == [1, 0, 2, 0, 3, 0, 4];
    assert d[2..][2..][2..] == [4];
    assert DecodeHexPairs(d[2..][2..]) == [Pair(3, 0)] + DecodeHexPairs([4]);
  }

  datatype Importance = Critical | Ancillary

  /** strings.ToUpper restricted to ASCII. */
  function AsciiUpper(b: byte): (u: byte) {
    if 0x61 <= b <= 0x7A then b - 0x20 else b
  }

  /** checkCritType: Critical when the first character equals its upper
      case; an empty type string panics. */
  function CheckCritType(ts: seq<byte>): (r: Result<Importance>)
    ensures r.Err? <==> ts == []
    ensures r.Err? ==> r.error == EmptyTypeString
    ensures r == Ok(Ancillary) <==> ts != [] && 0x61 <= ts[0] <= 0x7A
  {
    if ts == [] then Err(EmptyTypeString)
    else if ts[0] == AsciiUpper(ts[0]) then Ok(Critical)
    else Ok(Ancillary)
  }

  // ---------------------------------------------------------------------
  // The walk (the Meta loop of ProcessImage)

  /** What the walk yields per chunk: its number, its offset, the chunk as
      read, its type string and its classification. */
  datatype Record = Record(index: nat, offset: nat, chunk: Chunk, typeString: seq<byte>, importance: Importance)

  function Prepend(done: seq<Record>, rest: Result<seq<Record>>): (r: Result<seq<Record>>) {
    match rest
    case Ok(more) => Ok(done + more)
    case Err(e) => Err(e)
  }

  /** Walk from pos, numbering from count: record the offset, decode a
      chunk, classify it, and stop after the first whose type string is "IEND". */
  function WalkFrom(s: seq<byte>, pos: nat, count: nat): (r: Result<seq<Record>>)
    requires pos <= |s|
    decreases |s| - pos
  {
    match ParseChunk(s, pos)
    case Err(e) => Err(e)
    case Ok((c, next)) =>
      var ts := TypeToString(c.typ);
      match CheckCritType(ts)
      case Err(e) => Err(e)
      case Ok(imp) =>
        var rec := Record(count, pos, c, ts, imp);
        if ts == IEND then Ok([rec]) else Prepend([rec], WalkFrom(s, next, count + 1))
  }

  /** One step of a successful walk: the chunk at pos decodes, its record
      heads the result, and unless it is "IEND" the rest is the walk from
      the next chunk. */
  lemma WalkFromStep(s: seq<byte>, pos: nat, count: nat)
    requires pos <= |s| && WalkFrom(s, pos, count).Ok?
    ensures ParseChunk(s, pos).Ok?
    ensures var (c, next) := ParseChunk(s, pos).value;
      var ts := TypeToString(c.typ);
      var recs := WalkFrom(s, pos, count).value;
      && ts != []
      && |recs| >= 1
      && recs[0] == Record(count, pos, c, ts, CheckCritType(ts).value)
      && (ts == IEND ==> |recs| == 1)
      && (ts != IEND ==> next <= |s| && WalkFrom(s, next, count + 1).Ok?
                         && recs == [recs[0]] + WalkFrom(s, next, count + 1).value)
  {
  }

  predicate NumberedFrom(recs: seq<Record>, count: nat) {
    forall i :: 0 <= i < |recs| ==> recs[i].index == count + i
  }

  lemma IndicesCons(r: Record, rest: seq<Record>, count: nat)
    requires r.index == count && NumberedFrom(rest, count + 1)
    ensures NumberedFrom([r] + rest, count)
  {
    var recs := [r] + rest;
    forall i | 0 <= i < |recs|
      ensures recs[i].index == count + i
    {
      if i > 0 {
        assert recs[i] == rest[i - 1];
      }
    }
  }

  /** The records of a successful walk are numbered from count. */
  lemma {:induction false} WalkIndices(s: seq<byte>, pos: nat, count: nat)
    requires pos <= |s| && WalkFrom(s, pos, count).Ok?
    ensures NumberedFrom(WalkFrom(s, pos, count).value, count)
    decreases |s| - pos
  {
    WalkFromStep(s, pos, count);
    var (c, next) := ParseChunk(s, pos).value;
    var ts := TypeToString(c.typ);
    if ts != IEND {
      WalkIndices(s, next, count + 1);
      IndicesCons(Record(count, pos, c, ts, CheckCritType(ts).value), WalkFrom(s, next, count + 1).value, count);
    }
  }

  /** Each record of a successful walk holds the chunk that decodes at its
      offset, and the type string of that chunk. */
  lemma {:induction false} WalkDecodes(s: seq<byte>, pos: nat, count: nat)
    requires pos <= |s| && WalkFrom(s, pos, count).Ok?
    ensures var recs := WalkFrom(s, pos, count).value;
      && recs[0].offset == pos
      && (forall i :: 0 <= i < |recs| ==>
            && ParseChunk(s, recs[i].offset) == Ok((recs[i].chunk, recs[i].offset + 12 + recs[i].chunk.size as int))
            && recs[i].typeString == TypeToString(recs[i].chunk.typ))
    decreases |s| - pos
  {
    WalkFromStep(s, pos, count);
    var (c, next) := ParseChunk(s, pos).value;
    if TypeToString(c.typ) != IEND {
      WalkDecodes(s, next, count + 1);
    }
  }

  /** A successful walk moves from each chunk to the next by 12 + Size. */
  lemma {:induction false} WalkOffsets(s: seq<byte>, pos: nat, count: nat)
    requires pos <= |s| && WalkFrom(s, pos, count).Ok?
    ensures var recs := WalkFrom(s, pos, count).value;
      forall i :: 0 <= i < |recs| - 1 ==> recs[i + 1].offset == recs[i].offset + 12 + recs[i].chunk.size as int
    decreases |s| - pos
  {
    WalkFromStep(s, pos, count);
    var (c, next) := ParseChunk(s, pos).value;
    if TypeToString(c.typ) != IEND {
      WalkOffsets(s, next, count + 1);
      WalkDecodes(s, next, count + 1);
    }
  }

  /** A successful walk sees "IEND" last and only last, and its last chunk
      ends inside the buffer. */
  lemma {:induction false} WalkEnds(s: seq<byte>, pos: nat, count: nat)
    requires pos <= |s| && WalkFrom(s, pos, count).Ok?
    ensures var recs := WalkFrom(s, pos, count).value;
      && (forall i :: 0 <= i < |recs| - 1 ==> recs[i].typeString != IEND)
      && recs[|recs| - 1].typeString == IEND
      && recs[|recs| - 1].offset + 12 + recs[|recs| - 1].chunk.size as int <= |s|
    decreases |s| - pos
  {
    WalkFromStep(s, pos, count);
    var (c, next) := ParseChunk(s, pos).value;
    if TypeToString(c.typ) != IEND {
      WalkEnds(s, next, count + 1);
    }
  }

  /** The bytes of a chunk sequence laid end to end. */
  function Serialize(cs: seq<Chunk>): (b: seq<byte>)
    decreases |cs|
  {
    if cs == [] then [] else Marshal(cs[0]) + Serialize(cs[1..])
  }

  /** The classification the walk should give a type string: Ancillary
      exactly when it starts with a lower-case ASCII letter. */
  function Classify(ts: seq<byte>): (imp: Importance) {
    if ts != [] && 0x61 <= ts[0] <= 0x7A then Ancillary else Critical
  }

  lemma CheckCritTypeClassifies(ts: seq<byte>)
    requires ts != []
    ensures CheckCritType(ts) == Ok(Classify(ts))
  {
  }

  /** The records a walk should yield for chunks laid out from offset off. */
  function Expected(cs: seq<Chunk>, off: nat, count: nat): (recs: seq<Record>)
    ensures |recs| == |cs|
    decreases |cs|
  {
    if cs == [] then []
    else
      var ts := TypeToString(cs[0].typ);
      [Record(count, off, cs[0], ts, Classify(ts))] + Expected(cs[1..], off + 12 + |cs[0].data|, count + 1)
  }

  lemma ExpectedCons(cs: seq<Chunk>, off: nat, count: nat)
    requires |cs| >= 1
    ensures var ts := TypeToString(cs[0].typ);
      Expected(cs, off, count) == [Record(count, off, cs[0], ts, Classify(ts))] + Expected(cs[1..], off + 12 + |cs[0].data|, count + 1)
  {
  }

  /** The converse step: once the chunk at pos decodes with a nonempty type
      string, the walk records it and stops at "IEND" or goes on. */
  lemma WalkFromUnfold(s: seq<byte>, pos: nat, count: nat, c: Chunk, next: nat)
    requires pos <= |s| && ParseChunk(s, pos) == Ok((c, next))
    requires TypeToString(c.typ) != []
    ensures next <= |s|
    ensures var ts := TypeToString(c.typ);
      var rec := Record(count, pos, c, ts, CheckCritType(ts).value);
      WalkFrom(s, pos, count) == if ts == IEND then Ok([rec]) else Prepend([rec], WalkFrom(s, next, count + 1))
  {
  }

  /** The same step with the classification spelled out, for a caller that
      knows whether the chunk is the last. */
  lemma WalkRecords(s: seq<byte>, pos: nat, count: nat, c: Chunk, next: nat, last: bool)
    requires pos <= |s| && ParseChunk(s, pos) == Ok((c, next))
    requires TypeToString(c.typ) != [] && (last <==> TypeToString(c.typ) == IEND)
    ensures var ts := TypeToString(c.typ);
      var rec := Record(count, pos, c, ts, Classify(ts));
      WalkFrom(s, pos, count) == if last then Ok([rec]) else Prepend([rec], WalkFrom(s, next, count + 1))
  {
    WalkFromUnfold(s, pos, count, c, next);
    CheckCritTypeClassifies(TypeToString(c.typ));
  }

  /** The chunks a walk reads through: each with matching Size and a
      nonempty type string, with "IEND" last and only last. */
  predicate Walkable(cs: seq<Chunk>) {
    && |cs| >= 1
    && (forall i :: 0 <= i < |cs| ==> cs[i].size as int == |cs[i].data| && TypeToString(cs[i].typ) != [])
    && (forall i :: 0 <= i < |cs| - 1 ==> TypeToString(cs[i].typ) != IEND)
    && TypeToString(cs[|cs| - 1].typ) == IEND
  }

  lemma WalkableTail(cs: seq<Chunk>)
    requires Walkable(cs) && |cs| > 1
    ensures Walkable(cs[1..])
  {
    var t := cs[1..];
    assert forall i :: 0 <= i < |t| ==> t[i] == cs[i + 1];
  }

  /** Where a buffer holds a serialized sequence, it holds the first chunk's
      image and then the rest of the sequence. */
  lemma SerializedSplit(s: seq<byte>, pos: nat, cs: seq<Chunk>)
    requires |cs| >= 1
    requires pos + |Serialize(cs)| <= |s| && s[pos..pos + |Serialize(cs)|] == Serialize(cs)
    ensures var next := pos + 12 + |cs[0].data|;
      && next + |Serialize(cs[1..])| == pos + |Serialize(cs)|
      && s[pos..next] == Marshal(cs[0])
      && s[next..next + |Serialize(cs[1..])|] == Serialize(cs[1..])
  {
    var m, rest := Marshal(cs[0]), Serialize(cs[1..]);
    assert Serialize(cs) == m + rest;
    var t := s[pos..pos + |m| + |rest|];
    assert s[pos..pos + |m|] == t[..|m|];
    assert s[pos + |m|..pos + |m| + |rest|] == t[|m|..];
  }

  /** One step of the walk over a serialized sequence: the first chunk is
      recorded, and the walk ends there or goes on at the rest. */
  lemma WalkOverStep(s: seq<byte>, pos: nat, cs: seq<Chunk>, count: nat)
    requires Walkable(cs)
    requires pos + |Serialize(cs)| <= |s| && s[pos..pos + |Serialize(cs)|] == Serialize(cs)
    ensures var next := pos + 12 + |cs[0].data|;
      var ts := TypeToString(cs[0].typ);
      var rec := Record(count, pos, cs[0], ts, Classify(ts));
      && next + |Serialize(cs[1..])| <= |s|
      && s[next..next + |Serialize(cs[1..])|] == Serialize(cs[1..])
      && WalkFrom(s, pos, count) == if |cs| == 1 then Ok([rec]) else Prepend([rec], WalkFrom(s, next, count + 1))
  {
    var c := cs[0];
    var next := pos + 12 + |c.data|;
    SerializedSplit(s, pos, cs);
    ParseMarshalled(s, pos, c);
    WalkFromUnfold(s, pos, count, c, next);
    assert |cs| == 1 <==> TypeToString(c.typ) == IEND;
    WalkRecords(s, pos, count, c, next, |cs| == 1);
  }

  /** Walking a buffer at an offset where it holds a serialized sequence
      yields exactly the expected records, whatever surrounds it. */
  lemma {:induction false} WalkOver(s: seq<byte>, pos: nat, cs: seq<Chunk>, count: nat)
    requires Walkable(cs)
    requires pos + |Serialize(cs)| <= |s| && s[pos..pos + |Serialize(cs)|] == Serialize(cs)
    ensures WalkFrom(s, pos, count) == Ok(Expected(cs, pos, count))
    decreases |cs|
  {
    var next := pos + 12 + |cs[0].data|;
    var ts := TypeToString(cs[0].typ);
    var rec := Record(count, pos, cs[0], ts, Classify(ts));
    WalkOverStep(s, pos, cs, count);
    ExpectedCons(cs, pos, count);
    var rest := Expected(cs[1..], next, count + 1);
    assert Expected(cs, pos, count) == [rec] + rest;
    if |cs| == 1 {
      assert rest == [];
      assert [rec] + rest == [rec];
    } else {
      WalkableTail(cs);
      WalkOver(s, next, cs[1..], count + 1);
      assert Prepend([rec], WalkFrom(s, next, count + 1)) == Ok([rec] + rest);
    }
  }

  /** A stream of well-formed chunks whose last, and only last, type string
      is "IEND" walks to exactly those chunks, in order, at their offsets,
      whatever precedes and follows them. */
  lemma WalkSerialized(pre: seq<byte>, cs: seq<Chunk>, post: seq<byte>, count: nat)
    requires Walkable(cs)
    ensures |pre| <= |pre + Serialize(cs) + post|
    ensures WalkFrom(pre + Serialize(cs) + post, |pre|, count) == Ok(Expected(cs, |pre|, count))
  {
    var s := pre + Serialize(cs) + post;
    assert s[|pre|..|pre| + |Serialize(cs)|] == Serialize(cs);
    WalkOver(s, |pre|, cs, count);
  }
}
