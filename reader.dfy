/** The shared, seekable byte source every decoder reads from: the bytes of
    the file and one current position. Decoders that share a reader share the
    position, so one that seeks moves it for the others. */
module Readers {
  import opened Bytes

  class Reader {
    /** The whole file. */
    const data: seq<uint8>
    /** The current position; it may lie past the end, as after a seek. */
    var pos: nat

    constructor (data: seq<uint8>)
      ensures this.data == data && pos == 0
    {
      this.data := data;
      pos := 0;
    }

    /** Moves to an absolute position; seeking past the end is allowed. */
    method Seek(to: nat)
      modifies this
      ensures pos == to
    {
      pos := to;
    }

    /** Reads one word in byte order `e`; a short read fails and leaves the
        position where it was. */
    method ReadU32(e: Endian) returns (r: Option<uint32>)
      modifies this
      ensures r == U32At(data, old(pos), e)
      ensures pos == if r.Some? then old(pos) + 4 else old(pos)
    {
      r := U32At(data, pos, e);
      if r.Some? {
        pos := pos + 4;
      }
    }

    /** Fills `buf[..n]` with the next `n` bytes; fails, reading nothing, when
        fewer than `n` bytes remain. */
    method ReadExact(buf: array<uint8>, n: nat) returns (ok: bool)
      requires n <= buf.Length
      modifies this, buf
      ensures ok <==> old(pos) + n <= |data|
      ensures ok ==> buf[..n] == data[old(pos)..old(pos) + n] && pos == old(pos) + n
      ensures !ok ==> buf[..] == old(buf[..]) && pos == old(pos)
      ensures buf[n..] == old(buf[n..])
    {
      ok := pos + n <= |data|;
      if ok {
        var from := pos;
        forall i | 0 <= i < n {
          buf[i] := data[from + i];
        }
        pos := pos + n;
      }
    }
  }
}
