/** bytes.Reader: a read-only byte slice and a cursor over it. Only the
    operations the chunk layer uses are modelled: ReadFull (what binary.Read
    does for a fixed-size value), Read, Seek and WriteTo (what io.Copy uses). */
module ByteReader {
  import opened Bytes
  import opened Results

  /** The first n bytes at pos, or end of input (io.ReadFull). Reading no
      bytes always succeeds, wherever the cursor is. */
  function Take(s: seq<byte>, pos: nat, n: nat, field: Field): (r: Result<seq<byte>>)
    ensures r.Ok? <==> n == 0 || pos + n <= |s|
    ensures r.Ok? ==> |r.value| == n
    ensures r.Err? ==> r.error == Eof(field)
    ensures r.Ok? && n > 0 ==> r.value == s[pos..pos + n]
    ensures r.Ok? && n == 0 ==> r.value == []
  {
    if n == 0 then Ok([])
    else if pos + n <= |s| then Ok(s[pos..pos + n])
    else Err(Eof(field))
  }

  /** The unread part of s when the cursor is at pos (empty past the end). */
  function Tail(s: seq<byte>, pos: nat): (t: seq<byte>) {
    if pos < |s| then s[pos..] else []
  }

  datatype Whence = Start | Current   // io.SeekStart, io.SeekCurrent

  class Reader {
    const data: seq<byte>
    var pos: nat

    constructor (s: seq<byte>)
      ensures data == s && pos == 0
    {
      data := s;
      pos := 0;
    }

    /** io.ReadFull of n bytes. On a short read the cursor still moves past
        whatever was there, as bytes.Reader.Read does. */
    method ReadFull(n: nat, field: Field) returns (r: Result<seq<byte>>)
      modifies this
      ensures r == Take(data, old(pos), n, field)
      ensures pos == if r.Ok? then old(pos) + n else Max(old(pos), |data|)
    {
      if n == 0 {
        r := Ok([]);
      } else if pos + n <= |data| {
        r := Ok(data[pos..pos + n]);
        pos := pos + n;
      } else {
        if pos < |data| {
          pos := |data|;
        }
        r := Err(Eof(field));
      }
    }

    /** Reader.Read: copies as many unread bytes as fit into buf and says how
        many; the rest of buf is left as it was. */
    method Read(buf: array<byte>) returns (n: nat)
      modifies this, buf
      ensures n == Min(buf.Length, |Tail(data, old(pos))|)
      ensures pos == old(pos) + n
      ensures buf[..n] == Tail(data, old(pos))[..n]
      ensures buf[n..] == old(buf[n..])
    {
      n := if pos < |data| then Min(buf.Length, |data| - pos) else 0;
      var i := 0;
      while i < n
        invariant pos == old(pos)
        invariant 0 <= i <= n
        invariant n == 0 || pos + n <= |data|
        invariant buf[..i] == Tail(data, pos)[..i]
        invariant buf[n..] == old(buf[n..])
      {
        buf[i] := data[pos + i];
        i := i + 1;
      }
      pos := pos + n;
    }

    /** Reader.Seek: a negative target is refused and leaves the cursor;
        any target at or past the end is accepted. */
    method Seek(offset: int, whence: Whence) returns (r: Result<int>)
      modifies this
      ensures var target := if whence == Start then offset else old(pos) + offset;
              if target < 0 then r == Err(NegativePosition) && pos == old(pos)
              else r == Ok(target) && pos == target
    {
      var target := if whence == Start then offset else pos + offset;
      if target < 0 {
        r := Err(NegativePosition);
      } else {
        pos := target;
        r := Ok(target);
      }
    }

    /** Reader.WriteTo, as io.Copy calls it: hands over the unread bytes and
        moves the cursor to the end. */
    method WriteTo() returns (rest: seq<byte>)
      modifies this
      ensures rest == Tail(data, old(pos))
      ensures pos == Max(old(pos), |data|)
    {
      rest := Tail(data, pos);
      if pos < |data| {
        pos := |data|;
      }
    }
  }
}
