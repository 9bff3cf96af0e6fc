/** The MetaChunk of pnglib/commands.go and ProcessImage. The reader is a
    ByteReader.Reader over the loaded image; the output file is the byte
    sequence WriteData would write. */
module Commands {
  import opened Bytes
  import opened Results
  import opened ByteReader
  import opened Strconv
  import opened Chunks
  import opened Encoders
  import opened Write

  /** The action selected on the command line. */
  datatype Mode = Insert | Encode | Decode | Meta

  /** The options ProcessImage reads: the mode, the offset as typed, the
      four-letter type code, the payload and the XOR key. */
  datatype Options = Options(mode: Mode, offset: string, chunkType: seq<byte>, payload: seq<byte>, key: seq<byte>)

  /** What one run produces: the bytes written to the output file, if any,
      and the chunk report of the walk. */
  datatype Outcome = Outcome(written: Option<seq<byte>>, report: seq<Record>)

  // ---------------------------------------------------------------------
  // ProcessImage as a value

  /** The chunk the insert paths build: Data from the payload (XORed with
      the key when encoding), Type from the type code, Size and CRC derived. */
  function NewChunk(opts: Options): (r: Result<Chunk>) {
    var data := if opts.mode == Encode then EncodeDecodeSpec(opts.payload, opts.key) else Ok(opts.payload);
    if data.Err? then Err(data.error)
    else
      var typ := StrToInt(opts.chunkType);
      if typ.Err? then Err(typ.error)
      else Ok(MakeChunk(typ.value, data.value))
  }

  /** Where the decode path reads: the parsed offset, or the cursor left by
      validate when Seek refuses a negative target. */
  function DecodePosition(pos: nat, offsetStr: string): (at: nat) {
    var p := ParseInt(offsetStr);
    if p.value >= 0 then p.value else pos
  }

  /** A chunk with its Size and Type kept and new Data, its CRC recomputed:
      what the decode path does to the chunk it reads. */
  function Rewrapped(c: Chunk, data: seq<byte>): (d: Chunk) {
    Chunk(c.size, c.typ, data, ChunkCrc(c.typ, data))
  }

  /** The decode path's chunk: Size and Type as read, Data XORed with the
      key, CRC recomputed over the new data. */
  function DecodedChunk(s: seq<byte>, pos: nat, opts: Options): (r: Result<Chunk>) {
    var p := ParseChunk(s, DecodePosition(pos, opts.offset));
    if p.Err? then Err(p.error)
    else
      var c := p.value.0;
      var data := EncodeDecodeSpec(c.data, opts.key);
      if data.Err? then Err(data.error)
      else Ok(Rewrapped(c, data.value))
  }

  /** What ProcessImage does with the image s read from pos: validate, then
      walk (Meta) or build a chunk and write it. WriteData's parse error is
      ignored; its panic on a negative offset is not. */
  function ProcessSpec(s: seq<byte>, pos: nat, opts: Options): (r: Result<Outcome>) {
    var v := CheckSignature(s, pos);
    if v.Err? then Err(v.error)
    else if opts.mode == Meta then
      ValidateAccepts(s, pos);
      var w := WalkFrom(s, pos + 8, 1);
      if w.Err? then Err(w.error) else Ok(Outcome(None, w.value))
    else if opts.offset == [] then Ok(Outcome(None, []))
    else
      var c := if opts.mode == Decode then DecodedChunk(s, pos + 8, opts) else NewChunk(opts);
      if c.Err? then Err(c.error)
      else
        var out := WriteDataSpec(s, opts.offset, opts.mode == Decode, Marshal(c.value));
        if out == Err(NegativeOffset) then Err(NegativeOffset)
        else Ok(Outcome(out.ToOption(), []))
  }

  // ---------------------------------------------------------------------
  // MetaChunk

  class MetaChunk {
    var chk: Chunk
    var offset: int

    /** The zero value `var m MetaChunk`. */
    constructor ()
      ensures chk == Chunk(0, 0, [], 0) && offset == 0
    {
      chk := Chunk(0, 0, [], 0);
      offset := 0;
    }

    /** validate: eight bytes as a big-endian uint64, put back in order,
        bytes 1..3 compared with "PNG". */
    method Validate(r: Reader) returns (res: Result<()>)
      modifies r
      ensures res == CheckSignature(r.data, old(r.pos))
      ensures r.pos == if old(r.pos) + 8 <= |r.data| then old(r.pos) + 8 else Max(old(r.pos), |r.data|)
    {
      var header := r.ReadFull(8, Signature);
      if header.Err? {
        return Err(header.error);
      }
      var bArr := BE64(FromBE64(header.value));
      if bArr[1..4] != PNG {
        return Err(NotPng);
      }
      return Ok(());
    }

    /** readChunkSize. */
    method ReadChunkSize(r: Reader) returns (res: Result<()>)
      modifies this, r
      ensures var t := Take(r.data, old(r.pos), 4, SizeField);
        && res == (if t.Ok? then Ok(()) else Err(t.error))
        && chk == (if t.Ok? then old(chk).(size := FromBE32(t.value)) else old(chk))
      ensures r.pos == if old(r.pos) + 4 <= |r.data| then old(r.pos) + 4 else Max(old(r.pos), |r.data|)
      ensures offset == old(offset)
    {
      var b := r.ReadFull(4, SizeField);
      if b.Err? {
        return Err(b.error);
      }
      chk := chk.(size := FromBE32(b.value));
      return Ok(());
    }

    /** readChunkType. */
    method ReadChunkType(r: Reader) returns (res: Result<()>)
      modifies this, r
      ensures var t := Take(r.data, old(r.pos), 4, TypeField);
        && res == (if t.Ok? then Ok(()) else Err(t.error))
        && chk == (if t.Ok? then old(chk).(typ := FromBE32(t.value)) else old(chk))
      ensures r.pos == if old(r.pos) + 4 <= |r.data| then old(r.pos) + 4 else Max(old(r.pos), |r.data|)
      ensures offset == old(offset)
    {
      var b := r.ReadFull(4, TypeField);
      if b.Err? {
        return Err(b.error);
      }
      chk := chk.(typ := FromBE32(b.value));
      return Ok(());
    }

    /** readChunkBytes: Size zero bytes are made first, then filled. */
    method ReadChunkBytes(r: Reader) returns (res: Result<()>)
      modifies this, r
      ensures var n := old(chk).size as nat;
        var t := Take(r.data, old(r.pos), n, DataField);
        && res == (if t.Ok? then Ok(()) else Err(t.error))
        && chk == old(chk).(data := if t.Ok? then t.value else Zeros(n))
      ensures var n := old(chk).size as nat;
        r.pos == if n == 0 || old(r.pos) + n <= |r.data| then old(r.pos) + n else Max(old(r.pos), |r.data|)
      ensures offset == old(offset)
    {
      chk := chk.(data := Zeros(chk.size as nat));
      var b := r.ReadFull(chk.size as nat, DataField);
      if b.Err? {
        return Err(b.error);
      }
      chk := chk.(data := b.value);
      return Ok(());
    }

    /** readChunkCRC. */
    method ReadChunkCrc(r: Reader) returns (res: Result<()>)
      modifies this, r
      ensures var t := Take(r.data, old(r.pos), 4, CrcField);
        && res == (if t.Ok? then Ok(()) else Err(t.error))
        && chk == (if t.Ok? then old(chk).(crc := FromBE32(t.value)) else old(chk))
      ensures r.pos == if old(r.pos) + 4 <= |r.data| then old(r.pos) + 4 else Max(old(r.pos), |r.data|)
      ensures offset == old(offset)
    {
      var b := r.ReadFull(4, CrcField);
      if b.Err? {
        return Err(b.error);
      }
      chk := chk.(crc := FromBE32(b.value));
      return Ok(());
    }

    /** readChunk: the four field readers in order; the first failure is
        fatal. On success the chunk is the one ParseChunk decodes and the
        cursor is just past it. */
    method ReadChunk(r: Reader) returns (res: Result<()>)
      modifies this, r
      ensures var p := ParseChunk(r.data, old(r.pos));
        && (res.Ok? <==> p.Ok?)
        && (res.Err? ==> res.error == p.error)
        && (p.Ok? ==> chk == p.value.0 && r.pos == p.value.1)
      ensures offset == old(offset)
    {
      var pos := r.pos;
      ParseChunkOutcome(r.data, pos);
      res := ReadChunkSize(r);
      if res.Err? {
        return;
      }
      res := ReadChunkType(r);
      if res.Err? {
        return;
      }
      res := ReadChunkBytes(r);
      if res.Err? {
        return;
      }
      res := ReadChunkCrc(r);
      if res.Err? {
        return;
      }
      ParseChunkFields(r.data, pos);
    }

    /** getOffset: Seek(0, io.SeekCurrent), which cannot fail. */
    method GetOffset(r: Reader)
      modifies this, r
      ensures offset == r.pos && r.pos == old(r.pos) && chk == old(chk)
    {
      var o := r.Seek(0, Current);
      offset := o.value;
    }

    /** marshalData: the four fields appended to a buffer in order. */
    method MarshalData() returns (b: seq<byte>)
      ensures b == Marshal(chk)
    {
      b := [];
      b := b + BE32(chk.size);
      b := b + BE32(chk.typ);
      b := b + chk.data;
      b := b + BE32(chk.crc);
    }

    /** The Meta loop: record the offset, read a chunk, show and classify
        its type, and go on until that type string is "IEND". A walk that
        succeeds stops with the cursor just past that last chunk, which the
        receiver still holds, with its offset. */
    method Walk(r: Reader) returns (res: Result<seq<Record>>)
      requires r.pos <= |r.data|
      modifies this, r
      ensures res == WalkFrom(r.data, old(r.pos), 1)
      ensures res.Ok? ==> var last := res.value[|res.value| - 1];
        && r.pos == last.offset + 12 + last.chunk.size as int
        && chk == last.chunk && offset == last.offset
    {
      var count := 1;
      var chunkType: seq<byte> := [];
      var recs: seq<Record> := [];
      PrependNothing(WalkFrom(r.data, r.pos, count));
      while chunkType != IEND
        invariant r.pos <= |r.data|
        invariant chunkType != IEND ==> WalkFrom(r.data, old(r.pos), 1) == Prepend(recs, WalkFrom(r.data, r.pos, count))
        invariant chunkType == IEND ==> WalkFrom(r.data, old(r.pos), 1) == Ok(recs)
        invariant chunkType == IEND ==> |recs| > 0
        invariant |recs| > 0 ==> var last := recs[|recs| - 1];
          && r.pos == last.offset + 12 + last.chunk.size as int
          && chk == last.chunk && offset == last.offset
        decreases if chunkType == IEND then 0 else |r.data| - r.pos + 1
      {
        var before := r.pos;
        GetOffset(r);
        var read := ReadChunk(r);
        if read.Err? {
          return Err(read.error);
        }
        var ts := TypeToString(chk.typ);
        var imp := CheckCritType(ts);
        if imp.Err? {
          return Err(imp.error);
        }
        var rec := Record(count, offset, chk, ts, imp.value);
        WalkFromUnfold(r.data, before, count, chk, r.pos);
        PrependAssoc(recs, rec, WalkFrom(r.data, r.pos, count + 1));
        recs := recs + [rec];
        chunkType := ts;
        count := count + 1;
      }
      return Ok(recs);
    }

    /** ProcessImage with the options of one run. */
    method ProcessImage(r: Reader, opts: Options) returns (res: Result<Outcome>)
      modifies this, r
      ensures res == ProcessSpec(r.data, old(r.pos), opts)
    {
      var v := Validate(r);
      if v.Err? {
        return Err(v.error);
      }
      ValidateAccepts(r.data, old(r.pos));
      if opts.mode == Meta {
        var w := Walk(r);
        if w.Err? {
          return Err(w.error);
        }
        return Ok(Outcome(None, w.value));
      }
      if opts.offset == [] {
        return Ok(Outcome(None, []));
      }
      var m := new MetaChunk();
      if opts.mode == Decode {
        var p := ParseInt(opts.offset);
        var _ := r.Seek(p.value, Start);
        var read := m.ReadChunk(r);
        if read.Err? {
          return Err(read.error);
        }
        var data := XorDecode(m.chk.data, opts.key);
        if data.Err? {
          return Err(data.error);
        }
        m.chk := m.chk.(data := data.value);
        m.chk := m.chk.(crc := ChunkCrc(m.chk.typ, m.chk.data));
      } else {
        var data: Result<seq<byte>>;
        if opts.mode == Encode {
          data := XorEncode(opts.payload, opts.key);
        } else {
          data := Ok(opts.payload);
        }
        if data.Err? {
          return Err(data.error);
        }
        var typ := StrToInt(opts.chunkType);
        if typ.Err? {
          return Err(typ.error);
        }
        m.chk := m.chk.(data := data.value);
        m.chk := m.chk.(typ := typ.value);
        m.chk := m.chk.(size := ChunkSize(m.chk.data));
        m.chk := m.chk.(crc := ChunkCrc(m.chk.typ, m.chk.data));
      }
      var bmb := m.MarshalData();
      var out := WriteData(r, opts.offset, opts.mode == Decode, bmb);
      if out == Err(NegativeOffset) {
        return Err(NegativeOffset);
      }
      return Ok(Outcome(out.ToOption(), []));
    }
  }

  // ---------------------------------------------------------------------
  // What the mutation paths and the walk promise

  /** The chunk built on the insert paths: its Data is the payload, XORed on
      the encode path; its Type spells the first four bytes of the type
      code; Size and CRC agree with them when the payload fits in a uint32. */
  lemma NewChunkBuilt(opts: Options)
    requires opts.mode == Insert || opts.mode == Encode
    requires |opts.chunkType| >= 4
    requires opts.mode == Encode ==> |opts.payload| == 0 || |opts.key| > 0
    ensures NewChunk(opts).Ok?
    ensures var c := NewChunk(opts).value;
      && c.data == (if opts.mode == Encode then Xor(opts.payload, opts.key) else opts.payload)
      && BE32(c.typ) == opts.chunkType[..4]
      && c.size as int == |opts.payload| % 0x1_0000_0000
      && (|opts.payload| < 0x1_0000_0000 ==> Consistent(c))
  {
  }

  /** The insert paths fail exactly when the type code is shorter than four
      bytes or, when encoding, the key is empty and the payload is not. */
  lemma NewChunkFails(opts: Options)
    requires opts.mode == Insert || opts.mode == Encode
    ensures NewChunk(opts).Err? <==>
      |opts.chunkType| < 4 || (opts.mode == Encode && |opts.payload| > 0 && |opts.key| == 0)
    ensures opts.mode == Encode && |opts.payload| > 0 && |opts.key| == 0 ==> NewChunk(opts) == Err(EmptyKey)
  {
  }

  /** Past validation, a mutation run writes the marshalled chunk with
      WriteData and keeps going unless the offset is negative. */
  lemma ProcessWrites(s: seq<byte>, pos: nat, opts: Options, c: Chunk)
    requires opts.mode != Meta && CheckSignature(s, pos).Ok? && opts.offset != []
    requires (if opts.mode == Decode then DecodedChunk(s, pos + 8, opts) else NewChunk(opts)) == Ok(c)
    ensures var out := WriteDataSpec(s, opts.offset, opts.mode == Decode, Marshal(c));
      ProcessSpec(s, pos, opts) == if out == Err(NegativeOffset) then Err(NegativeOffset) else Ok(Outcome(out.ToOption(), []))
  {
  }

  /** Plain or encoded insert: the output is the source with the chunk's
      bytes placed at the offset. */
  lemma InsertLayout(s: seq<byte>, pos: nat, opts: Options, off: nat)
    requires opts.mode == Insert || opts.mode == Encode
    requires CheckSignature(s, pos).Ok?
    requires ParseInt(opts.offset) == Parsed(off, true) && off <= |s|
    requires NewChunk(opts).Ok?
    ensures ProcessSpec(s, pos, opts) == Ok(Outcome(Some(s[..off] + Marshal(NewChunk(opts).value) + s[off..]), []))
  {
    var c := NewChunk(opts).value;
    ProcessWrites(s, pos, opts, c);
    assert WriteDataSpec(s, opts.offset, false, Marshal(c)) == Ok(Splice(s, off, Marshal(c), false));
    SpliceInsert(s, off, Marshal(c));
  }

  /** An insert grows the image by exactly 12 + |payload| bytes, and the
      new chunk reads back from the output at the offset. */
  lemma InsertGrows(s: seq<byte>, opts: Options, off: nat, c: Chunk)
    requires opts.mode == Insert || opts.mode == Encode
    requires NewChunk(opts) == Ok(c) && off <= |s| && |opts.payload| < 0x1_0000_0000
    ensures var out := s[..off] + Marshal(c) + s[off..];
      && |out| == |s| + 12 + |opts.payload|
      && ParseChunk(out, off) == Ok((c, off + 12 + |opts.payload|))
  {
    NewChunkBuilt(opts);
    MarshalThenParse(s[..off], c, s[off..]);
  }

  /** The encoded payload is recoverable: XORing the inserted Data with the
      same key gives the payload back. */
  lemma EncodedPayloadRecoverable(opts: Options)
    requires opts.mode == Encode && NewChunk(opts).Ok?
    ensures Xor(NewChunk(opts).value.data, opts.key) == opts.payload
  {
    XorInvolution(opts.payload, opts.key);
  }

  /** A negative offset that parses is fatal: make([]byte, offset) panics. */
  lemma NegativeOffsetAborts(s: seq<byte>, pos: nat, opts: Options)
    requires opts.mode == Insert || opts.mode == Encode
    requires CheckSignature(s, pos).Ok? && NewChunk(opts).Ok?
    requires ParseInt(opts.offset).ok && ParseInt(opts.offset).value < 0
    ensures ProcessSpec(s, pos, opts) == Err(NegativeOffset)
  {
  }

  /** An offset that is not a number reaches WriteData, whose error is
      ignored: nothing is written and the run still succeeds. */
  lemma NonNumericOffsetWritesNothing(s: seq<byte>, pos: nat, opts: Options, i: nat)
    requires opts.mode == Insert || opts.mode == Encode
    requires CheckSignature(s, pos).Ok? && NewChunk(opts).Ok?
    requires i < |opts.offset| && !IsDigit(opts.offset[i])
    requires i > 0 || (opts.offset[0] != '+' && opts.offset[0] != '-')
    ensures ProcessSpec(s, pos, opts) == Ok(Outcome(None, []))
  {
    ParseIntRejectsNonDigit(opts.offset, i);
  }

  /** With an offset that parses to a chunk, the decode path's chunk is
      that chunk with its Data XORed with the key. */
  lemma DecodedChunkIs(s: seq<byte>, pos: nat, opts: Options, off: nat, c: Chunk, next: nat)
    requires ParseInt(opts.offset) == Parsed(off, true)
    requires ParseChunk(s, off) == Ok((c, next))
    requires |c.data| == 0 || |opts.key| > 0
    ensures DecodedChunk(s, pos, opts) == Ok(Rewrapped(c, Xor(c.data, opts.key)))
  {
  }

  /** A chunk written over the span [off, next) of s reads back there. */
  lemma ReplacedParses(s: seq<byte>, off: nat, next: nat, d: Chunk)
    requires off <= next <= |s| && next == off + 12 + |d.data| && d.size as int == |d.data|
    ensures ParseChunk(s[..off] + Marshal(d) + s[next..], off) == Ok((d, next))
  {
    assert |s[..off]| == off;
    MarshalThenParse(s[..off], d, s[next..]);
  }

  /** Overwriting the span [off, next) of s with bytes of the same length
      and the same first eight keeps the length, the bytes before off + 8
      and the bytes from next on. */
  lemma OverwriteSpan(s: seq<byte>, off: nat, next: nat, b: seq<byte>)
    requires off + 8 <= next <= |s| && |b| == next - off && b[..8] == s[off..off + 8]
    ensures var out := s[..off] + b + s[next..];
      && |out| == |s|
      && out[..off + 8] == s[..off + 8]
      && out[next..] == s[next..]
  {
    var out := s[..off] + b + s[next..];
    forall i | 0 <= i < off + 8
      ensures out[i] == s[i]
    {
      if i >= off {
        assert out[i] == b[..8][i - off];
      }
    }
    assert out[..off + 8] == s[..off + 8];
  }

  /** Writing a chunk of the same Size and Type over one read from s: the
      length is kept, so are the bytes up to the Data and after the chunk,
      and the new chunk reads back at the same place. */
  lemma ReplaceChunk(s: seq<byte>, off: nat, c: Chunk, next: nat, d: Chunk)
    requires ParseChunk(s, off) == Ok((c, next))
    requires d.size == c.size && d.typ == c.typ && |d.data| == |c.data|
    ensures var out := s[..off] + Marshal(d) + s[next..];
      && Splice(s, off, Marshal(d), true) == out
      && |out| == |s|
      && out[..off + 8] == s[..off + 8]
      && out[next..] == s[next..]
      && ParseChunk(out, off) == Ok((d, next))
  {
    var b, m := Marshal(d), Marshal(c);
    SpliceReplace(s, off, b);
    ReplacedParses(s, off, next, d);
    ParseThenMarshal(s, off);
    assert b[..8] == m[..8] == s[off..off + 8];
    OverwriteSpan(s, off, next, b);
  }

  /** The decode path rewrites the chunk at the offset in place: same length,
      the same first eight bytes (Size and Type), Data XORed with the key,
      a CRC that matches the new Data, and every byte after the chunk
      unchanged. */
  lemma DecodeInPlace(s: seq<byte>, pos: nat, opts: Options, off: nat, c: Chunk, next: nat)
    requires opts.mode == Decode
    requires CheckSignature(s, pos).Ok?
    requires ParseInt(opts.offset) == Parsed(off, true)
    requires ParseChunk(s, off) == Ok((c, next))
    requires |c.data| == 0 || |opts.key| > 0
    ensures var d := Rewrapped(c, Xor(c.data, opts.key));
      var out := s[..off] + Marshal(d) + s[next..];
      && ProcessSpec(s, pos, opts) == Ok(Outcome(Some(out), []))
      && Consistent(d)
      && |out| == |s|
      && out[..off + 8] == s[..off + 8]
      && out[next..] == s[next..]
      && ParseChunk(out, off) == Ok((d, next))
  {
    var d := Rewrapped(c, Xor(c.data, opts.key));
    DecodedChunkIs(s, pos + 8, opts, off, c, next);
    ProcessWrites(s, pos, opts, d);
    ReplaceChunk(s, off, c, next, d);
  }

  /** The image after an encoded insert: the signature still passes, the
      encoded chunk reads back at the offset, and the bytes around it are
      the source's. */
  lemma EncodedImage(s: seq<byte>, pos: nat, off: nat, e: Chunk)
    requires CheckSignature(s, pos).Ok? && pos + 8 <= off <= |s|
    requires e.size as int == |e.data|
    ensures var out := s[..off] + Marshal(e) + s[off..];
      && CheckSignature(out, pos).Ok?
      && ParseChunk(out, off) == Ok((e, off + 12 + |e.data|))
      && out[..off] == s[..off]
      && out[off + 12 + |e.data|..] == s[off..]
  {
    var out := s[..off] + Marshal(e) + s[off..];
    assert out[pos + 1..pos + 4] == s[pos + 1..pos + 4];
    ValidateAccepts(s, pos);
    ValidateAccepts(out, pos);
    MarshalThenParse(s[..off], e, s[off..]);
  }

  /** Decoding an image into which chunk e was inserted at the offset, when
      XORing e's Data gives chunk plain: the output is the source with plain
      inserted there instead. */
  lemma DecodeOfInserted(s: seq<byte>, pos: nat, opts: Options, off: nat, e: Chunk, plain: Chunk)
    requires opts.mode == Decode
    requires CheckSignature(s, pos).Ok? && pos + 8 <= off <= |s|
    requires ParseInt(opts.offset) == Parsed(off, true)
    requires e.size as int == |e.data| && (|e.data| == 0 || |opts.key| > 0)
    requires plain == Rewrapped(e, Xor(e.data, opts.key))
    ensures ProcessSpec(s[..off] + Marshal(e) + s[off..], pos, opts)
         == Ok(Outcome(Some(s[..off] + Marshal(plain) + s[off..]), []))
  {
    var out := s[..off] + Marshal(e) + s[off..];
    var next := off + 12 + |e.data|;
    EncodedImage(s, pos, off, e);
    DecodeInPlace(out, pos, opts, off, e, next);
    var b := Marshal(plain);
    assert out[..off] + b + out[next..] == s[..off] + b + s[off..];
  }

  /** Encoding a payload into a chunk and then decoding that chunk at the
      same offset gives the very bytes a plain insert of the payload gives. */
  lemma EncodeThenDecode(s: seq<byte>, pos: nat, opts: Options, off: nat)
    requires opts.mode == Encode
    requires CheckSignature(s, pos).Ok? && pos + 8 <= off <= |s|
    requires ParseInt(opts.offset) == Parsed(off, true)
    requires |opts.chunkType| >= 4 && (|opts.payload| == 0 || |opts.key| > 0) && |opts.payload| < 0x1_0000_0000
    ensures var encoded := ProcessSpec(s, pos, opts);
      && encoded.Ok? && encoded.value.written.Some?
      && ProcessSpec(encoded.value.written.value, pos, opts.(mode := Decode))
         == ProcessSpec(s, pos, opts.(mode := Insert))
  {
    var insert := opts.(mode := Insert);
    NewChunkBuilt(opts);
    NewChunkBuilt(insert);
    var e, plain := NewChunk(opts).value, NewChunk(insert).value;
    InsertLayout(s, pos, opts, off);
    InsertLayout(s, pos, insert, off);
    XorInvolution(opts.payload, opts.key);
    assert Rewrapped(e, Xor(e.data, opts.key)) == plain;
    DecodeOfInserted(s, pos, opts.(mode := Decode), off, e, plain);
  }

  /** The Meta report numbers its chunks from 1, starts right after the
      signature, steps by 12 + Size, and ends with the first "IEND". */
  lemma MetaReport(s: seq<byte>, pos: nat, opts: Options)
    requires opts.mode == Meta && ProcessSpec(s, pos, opts).Ok?
    ensures var recs := ProcessSpec(s, pos, opts).value.report;
      && NumberedFrom(recs, 1)
      && recs[0].offset == pos + 8
      && (forall i :: 0 <= i < |recs| - 1 ==> recs[i + 1].offset == recs[i].offset + 12 + recs[i].chunk.size as int)
      && (forall i :: 0 <= i < |recs| - 1 ==> recs[i].typeString != IEND)
      && recs[|recs| - 1].typeString == IEND
  {
    ValidateAccepts(s, pos);
    WalkIndices(s, pos + 8, 1);
    WalkDecodes(s, pos + 8, 1);
    WalkOffsets(s, pos + 8, 1);
    WalkEnds(s, pos + 8, 1);
  }

  /** An image made of a signature and well-formed chunks ending in "IEND"
      is reported chunk by chunk, whatever follows. */
  lemma MetaReportsChunks(sig: seq<byte>, cs: seq<Chunk>, post: seq<byte>, opts: Options)
    requires opts.mode == Meta && |sig| == 8 && sig[1..4] == PNG
    requires Walkable(cs)
    ensures ProcessSpec(sig + Serialize(cs) + post, 0, opts) == Ok(Outcome(None, Expected(cs, 8, 1)))
  {
    var s := sig + Serialize(cs) + post;
    assert s[1..4] == sig[1..4];
    ValidateAccepts(s, 0);
    WalkSerialized(sig, cs, post, 1);
  }

  /** The type code a four-letter type string stands for is shown as that
      string again when its first byte is at least 0x10. */
  lemma TypeCodeShown(ts: seq<byte>)
    requires |ts| == 4 && ts[0] >= 0x10
    ensures TypeToString(FromBE32(ts)) == ts
  {
    BE32FromBE32(ts);
    TypeToStringWide(FromBE32(ts));
  }

  lemma SerializePair(a: Chunk, b: Chunk)
    ensures Serialize([a, b]) == Marshal(a) + Marshal(b)
  {
    var cs := [a, b];
    assert cs[1..] == [b] && cs[1..][1..] == [];
    assert Serialize([b]) == Marshal(b) + Serialize([]);
    assert Marshal(b) + [] == Marshal(b);
  }

  lemma WalkablePair(a: Chunk, b: Chunk)
    requires a.size as int == |a.data| && b.size as int == |b.data|
    requires TypeToString(a.typ) != [] && TypeToString(a.typ) != IEND
    requires TypeToString(b.typ) == IEND
    ensures Walkable([a, b])
  {
    var cs := [a, b];
    assert forall i :: 0 <= i < |cs| ==> cs[i] == a || cs[i] == b;
  }

  /** A signature, a five-byte "tEXt" chunk and an "IEND" chunk, whatever
      their stored CRCs, are reported as two chunks: "tEXt" at offset 8,
      Ancillary, then "IEND" at offset 25, Critical. */
  lemma TextThenEnd(sig: seq<byte>, crc1: u32, crc2: u32, opts: Options)
    requires opts.mode == Meta && |sig| == 8 && sig[1..4] == PNG
    ensures var text := Chunk(5, FromBE32([0x74, 0x45, 0x58, 0x74]), [0x48, 0x65, 0x6C, 0x6C, 0x6F], crc1);
      var end := Chunk(0, FromBE32(IEND), [], crc2);
      ProcessSpec(sig + Marshal(text) + Marshal(end), 0, opts) == Ok(Outcome(None, [
        Record(1, 8, text, [0x74, 0x45, 0x58, 0x74], Ancillary),
        Record(2, 25, end, IEND, Critical)]))
  {
    var tEXt: seq<byte> := [0x74, 0x45, 0x58, 0x74];
    var text := Chunk(5, FromBE32(tEXt), [0x48, 0x65, 0x6C, 0x6C, 0x6F], crc1);
    var end := Chunk(0, FromBE32(IEND), [], crc2);
    TypeCodeShown(tEXt);
    TypeCodeShown(IEND);
    var cs := [text, end];
    assert cs[1..] == [end] && cs[1..][1..] == [];
    SerializePair(text, end);
    assert tEXt != IEND by {
      assert tEXt[0] != IEND[0];
    }
    WalkablePair(text, end);
    MetaReportsChunks(sig, cs, [], opts);
    var s := sig + Marshal(text) + Marshal(end);
    assert sig + Serialize(cs) + [] == s;
    var r1 := Record(1, 8, text, tEXt, Ancillary);
    var r2 := Record(2, 25, end, IEND, Critical);
    assert Classify(tEXt) == Ancillary && Classify(IEND) == Critical;
    ExpectedCons(cs[1..], 25, 2);
    assert Expected(cs[1..][1..], 37, 3) == [];
    assert Expected(cs[1..], 25, 2) == [r2];
    ExpectedCons(cs, 8, 1);
    assert Expected(cs, 8, 1) == [r1, r2];
  }

  lemma PrependNothing(rest: Result<seq<Record>>)
    ensures Prepend([], rest) == rest
  {
    if rest.Ok? {
      assert [] + rest.value == rest.value;
    }
  }

  /** Adding one more record to the done part of a walk. */
  lemma PrependAssoc(recs: seq<Record>, rec: Record, rest: Result<seq<Record>>)
    ensures Prepend(recs, Prepend([rec], rest)) == Prepend(recs + [rec], rest)
  {
    if rest.Ok? {
      assert recs + ([rec] + rest.value) == (recs + [rec]) + rest.value;
    }
  }
}
