/** pnglib/write.go: WriteData. The output file is modelled as the byte
    sequence WriteData writes to it: the first `offset` bytes of the source
    (zero padded when the source is shorter), the new bytes, and the rest of
    the source, skipping as many source bytes as were written in decode mode. */
module Write {
  import opened Bytes
  import opened Results
  import opened ByteReader
  import opened Strconv

  /** The bytes written for an offset already parsed and not negative. */
  function Splice(src: seq<byte>, offset: nat, b: seq<byte>, decode: bool): (out: seq<byte>)
    ensures |out| == offset + |b| + |Tail(src, Min(offset, |src|) + (if decode then |b| else 0))|
  {
    var m := Min(offset, |src|);
    src[..m] + Zeros(offset - m) + b + Tail(src, m + if decode then |b| else 0)
  }

  /** WriteData as a value: a parse error is returned before anything is
      written; a negative offset makes `make` panic. */
  function WriteDataSpec(src: seq<byte>, offsetStr: string, decode: bool, b: seq<byte>): (r: Result<seq<byte>>) {
    var p := ParseInt(offsetStr);
    if !p.ok then Err(BadOffset)
    else if p.value < 0 then Err(NegativeOffset)
    else Ok(Splice(src, p.value, b, decode))
  }

  /** WriteData: rewind, read `offset` bytes into a zeroed buffer and write
      it whole, write b, skip |b| source bytes in decode mode, copy the rest. */
  method WriteData(r: Reader, offsetStr: string, decode: bool, b: seq<byte>) returns (res: Result<seq<byte>>)
    modifies r
    ensures res == WriteDataSpec(r.data, offsetStr, decode, b)
    ensures var p := ParseInt(offsetStr);
      r.pos == if !p.ok then old(r.pos)
               else if p.value < 0 then 0
               else Max(Min(p.value, |r.data|) + (if decode then |b| else 0), |r.data|)
  {
    var p := ParseInt(offsetStr);
    if !p.ok {
      return Err(BadOffset);
    }
    var _ := r.Seek(0, Start);
    if p.value < 0 {
      return Err(NegativeOffset);
    }
    var buff := new byte[p.value](_ => 0);
    var n := r.Read(buff);
    assert buff[..] == r.data[..n] + Zeros(p.value - n) by {
      assert buff[..] == buff[..n] + buff[n..];
    }
    var out := buff[..] + b;
    if decode {
      var _ := r.Seek(|b|, Current);
    }
    var rest := r.WriteTo();
    return Ok(out + rest);
  }

  /** Insert modes: the new bytes land at offset and everything after moves
      up by |b|. */
  lemma SpliceInsert(src: seq<byte>, offset: nat, b: seq<byte>)
    requires offset <= |src|
    ensures Splice(src, offset, b, false) == src[..offset] + b + src[offset..]
    ensures |Splice(src, offset, b, false)| == |src| + |b|
  {
    assert Zeros(0) == [];
  }

  /** Decode mode: the new bytes replace exactly |b| source bytes, so the
      length is kept. */
  lemma SpliceReplace(src: seq<byte>, offset: nat, b: seq<byte>)
    requires offset + |b| <= |src|
    ensures Splice(src, offset, b, true) == src[..offset] + b + src[offset + |b|..]
    ensures |Splice(src, offset, b, true)| == |src|
  {
    assert Zeros(0) == [];
  }

  /** The output always starts with exactly `offset` bytes: the source
      prefix, padded with zeros where the source is shorter; then b. */
  lemma SplicePrefix(src: seq<byte>, offset: nat, b: seq<byte>, decode: bool)
    ensures var out := Splice(src, offset, b, decode);
      && |out| >= offset + |b|
      && (forall i :: 0 <= i < Min(offset, |src|) ==> out[i] == src[i])
      && (forall i :: |src| <= i < offset ==> out[i] == 0)
      && out[offset..offset + |b|] == b
  {
    var m := Min(offset, |src|);
    var out := Splice(src, offset, b, decode);
    var head := src[..m] + Zeros(offset - m);
    assert out == head + b + Tail(src, m + if decode then |b| else 0);
    assert out[offset..offset + |b|] == b;
    assert forall i :: 0 <= i < m ==> out[i] == head[i] == src[i];
    assert forall i :: |src| <= i < offset ==> out[i] == head[i] == 0;
  }

  /** An offset with a character that is neither a digit nor a leading sign
      is reported before anything is written. */
  lemma NonNumericOffsetRejected(src: seq<byte>, offsetStr: string, i: nat, decode: bool, b: seq<byte>)
    requires i < |offsetStr| && !IsDigit(offsetStr[i])
    requires i > 0 || (offsetStr[0] != '+' && offsetStr[0] != '-')
    ensures WriteDataSpec(src, offsetStr, decode, b) == Err(BadOffset)
  {
    ParseIntRejectsNonDigit(offsetStr, i);
  }
}
