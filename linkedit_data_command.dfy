/** `struct linkedit_data_command` of `<mach-o/loader.h>`: a load command
    that locates a blob in the `__LINKEDIT` segment (code signature, function
    starts, chained fixups and the like) by offset and size, and the copy of
    that blob to an output stream in fixed-size chunks. */
module LinkEdit {
  import opened Bytes
  import opened Readers

  /** Size of the transfer buffer: no chunk is longer. */
  const BUFFER_SIZE: nat := 4096

  function Min(a: nat, b: nat): nat {
    if a < b then a else b
  }

  /** Whether a sink with capacity `limit` (None: unbounded) takes a write
      that brings its total to `total` bytes. */
  predicate Accepts(limit: Option<nat>, total: nat) {
    limit.None? || total <= limit.value
  }

  /** How many bytes of an `n`-byte write a sink with capacity `limit` takes
      when it already holds `have`: all of them when they fit; otherwise as
      many as fill it to capacity, and none when it is already full. */
  function Fits(limit: Option<nat>, have: nat, n: nat): (r: nat)
    ensures r <= n
    ensures Accepts(limit, have + n) ==> r == n
    ensures 0 < n && !Accepts(limit, have + n) ==> r < n
    ensures r < n ==> have + r == if have < limit.value then limit.value else have
  {
    if Accepts(limit, have + n) then n
    else if have < limit.value then limit.value - have
    else 0
  }

  /** An output stream with capacity `limit`. `write_all` takes the whole
      chunk, or, when the chunk would take the total past `limit`, takes the
      part that fits and then fails. */
  class Sink {
    /** Everything written so far. */
    var written: seq<uint8>
    /** The length of every successful write, in order. */
    ghost var chunks: seq<nat>
    const limit: Option<nat>

    constructor (limit: Option<nat>)
      ensures written == [] && chunks == [] && this.limit == limit
    {
      written := [];
      chunks := [];
      this.limit := limit;
    }

    method WriteAll(chunk: seq<uint8>) returns (ok: bool)
      modifies this
      ensures ok <==> Accepts(limit, |old(written)| + |chunk|)
      ensures written == old(written) + chunk[..Fits(limit, |old(written)|, |chunk|)]
      ensures chunks == if ok then old(chunks) + [|chunk|] else old(chunks)
    {
      ok := Accepts(limit, |written| + |chunk|);
      written := written + chunk[..Fits(limit, |written|, |chunk|)];
      if ok {
        chunks := chunks + [|chunk|];
      }
    }
  }

  /** What the copy loop leaves in a sink that held `sink`, when `remaining`
      bytes of `file` from `pos` are still to be copied, and whether it
      succeeds. Each round reads `min(remaining, BUFFER_SIZE)` bytes and
      writes them; a short read or a refused write ends the copy, and a
      refused write leaves behind the part of its chunk the sink took. */
  function Copy(file: seq<uint8>, pos: nat, remaining: nat, sink: seq<uint8>, limit: Option<nat>)
    : (seq<uint8>, bool)
    decreases remaining
  {
    if remaining == 0 then (sink, true)
    else
      var n := Min(remaining, BUFFER_SIZE);
      if pos + n > |file| then (sink, false)
      else if !Accepts(limit, |sink| + n) then (sink + file[pos..pos + Fits(limit, |sink|, n)], false)
      else Copy(file, pos + n, remaining - n, sink + file[pos..pos + n], limit)
  }

  /** The sink only grows, by at most `remaining` bytes, and what it gains
      is the file from `pos` on. */
  lemma {:induction false} CopyAppendsFile(file: seq<uint8>, pos: nat, remaining: nat, sink: seq<uint8>, limit: Option<nat>)
    ensures var r := Copy(file, pos, remaining, sink, limit);
      && |sink| <= |r.0| <= |sink| + remaining
      && (|r.0| == |sink| ==> r.0 == sink)
      && (|r.0| > |sink| ==> pos + (|r.0| - |sink|) <= |file| && r.0 == sink + file[pos..pos + (|r.0| - |sink|)])
    decreases remaining
  {
    if remaining > 0 {
      var n := Min(remaining, BUFFER_SIZE);
      if pos + n <= |file| && Accepts(limit, |sink| + n) {
        var r := Copy(file, pos + n, remaining - n, sink + file[pos..pos + n], limit);
        CopyAppendsFile(file, pos + n, remaining - n, sink + file[pos..pos + n], limit);
        var d := |r.0| - |sink|;
        assert file[pos..pos + d] == file[pos..pos + n] + file[pos + n..pos + d];
      }
    }
  }

  /** The copy succeeds exactly when there is nothing to copy, or the file
      holds the whole range and the sink takes all of it; the sink then gains
      the whole range. */
  lemma {:induction false} CopySucceeds(file: seq<uint8>, pos: nat, remaining: nat, sink: seq<uint8>, limit: Option<nat>)
    ensures var r := Copy(file, pos, remaining, sink, limit);
      && (r.1 <==> remaining == 0 || (pos + remaining <= |file| && Accepts(limit, |sink| + remaining)))
      && (r.1 ==> |r.0| == |sink| + remaining)
      && (r.1 && remaining > 0 ==> pos + remaining <= |file| && r.0 == sink + file[pos..pos + remaining])
    decreases remaining
  {
    CopyAppendsFile(file, pos, remaining, sink, limit);
    if remaining > 0 {
      var n := Min(remaining, BUFFER_SIZE);
      if pos + n <= |file| && Accepts(limit, |sink| + n) {
        CopySucceeds(file, pos + n, remaining - n, sink + file[pos..pos + n], limit);
      }
    }
  }

  /** How a failed copy that moved `k` bytes of `file` from `pos`, with
      `remaining` to go, into a sink that held `have` bytes, came to stop.
      Its completed rounds moved whole chunks, `w` bytes in all. A short
      read of the next chunk leaves nothing more; a refused write leaves the
      part of that chunk the sink took, a proper prefix of it. */
  predicate StopsAt(file: seq<uint8>, pos: nat, remaining: nat, have: nat, limit: Option<nat>, k: nat)
    requires k < remaining
  {
    var w := k - k % BUFFER_SIZE;
    var n := Min(remaining - w, BUFFER_SIZE);
    && (pos + w + n > |file| ==> k == w)
    && (pos + w + n <= |file| ==> !Accepts(limit, have + w + n) && k == w + Fits(limit, have + w, n) < w + n)
  }

  /** Where a failed copy stops: see StopsAt. */
  lemma {:induction false} CopyFailsAtChunk(file: seq<uint8>, pos: nat, remaining: nat, sink: seq<uint8>, limit: Option<nat>)
    ensures var r := Copy(file, pos, remaining, sink, limit);
      !r.1 ==>
        && |sink| <= |r.0| < |sink| + remaining
        && StopsAt(file, pos, remaining, |sink|, limit, |r.0| - |sink|)
    decreases remaining
  {
    if remaining > 0 {
      var n := Min(remaining, BUFFER_SIZE);
      if pos + n <= |file| && Accepts(limit, |sink| + n) {
        var sink' := sink + file[pos..pos + n];
        CopyStep(file, pos, remaining, sink, limit);
        CopyFailsAtChunk(file, pos + n, remaining - n, sink', limit);
        var r := Copy(file, pos + n, remaining - n, sink', limit);
        if !r.1 {
          StopsLater(file, pos, remaining, |sink|, limit, |r.0| - |sink|);
        }
      } else {
        StopsNow(file, pos, remaining, sink, limit);
      }
    }
  }

  /** A round that cannot read or write its chunk ends the copy there. */
  lemma StopsNow(file: seq<uint8>, pos: nat, remaining: nat, sink: seq<uint8>, limit: Option<nat>)
    requires remaining > 0
    requires !(pos + Min(remaining, BUFFER_SIZE) <= |file| && Accepts(limit, |sink| + Min(remaining, BUFFER_SIZE)))
    ensures var r := Copy(file, pos, remaining, sink, limit);
      && !r.1
      && |sink| <= |r.0| < |sink| + remaining
      && StopsAt(file, pos, remaining, |sink|, limit, |r.0| - |sink|)
  {
    CopyStops(file, pos, remaining, sink, limit);
  }

  /** A failure after one more full round stops in the same way. */
  lemma StopsLater(file: seq<uint8>, pos: nat, remaining: nat, have: nat, limit: Option<nat>, k: nat)
    requires BUFFER_SIZE <= k < remaining
    requires StopsAt(file, pos + BUFFER_SIZE, remaining - BUFFER_SIZE, have + BUFFER_SIZE, limit, k - BUFFER_SIZE)
    ensures StopsAt(file, pos, remaining, have, limit, k)
  {
  }

  /** One successful round of the copy. */
  lemma CopyStep(file: seq<uint8>, pos: nat, remaining: nat, sink: seq<uint8>, limit: Option<nat>)
    requires remaining > 0
    requires pos + Min(remaining, BUFFER_SIZE) <= |file|
    requires Accepts(limit, |sink| + Min(remaining, BUFFER_SIZE))
    ensures var n := Min(remaining, BUFFER_SIZE);
      Copy(file, pos, remaining, sink, limit) == Copy(file, pos + n, remaining - n, sink + file[pos..pos + n], limit)
  {
  }

  /** `j` whole chunks and a part of one more: the whole-chunk part of the
      total is the `j` chunks. */
  lemma WholeChunks(j: nat, part: nat)
    requires part < BUFFER_SIZE
    ensures var k := BUFFER_SIZE * j + part; k - k % BUFFER_SIZE == BUFFER_SIZE * j
  {
  }

  /** Appending the next slice of `file` to a copy of the slice before it. */
  lemma SliceGrows(file: seq<uint8>, sink: seq<uint8>, from: nat, mid: nat, to: nat)
    requires from <= mid <= to <= |file|
    ensures sink + file[from..mid] + file[mid..to] == sink + file[from..to]
  {
    assert file[from..to] == file[from..mid] + file[mid..to];
  }

  /** The failing round of the copy: a short read leaves the sink as it
      was, a refused write adds the part of the chunk the sink took. */
  lemma CopyStops(file: seq<uint8>, pos: nat, remaining: nat, sink: seq<uint8>, limit: Option<nat>)
    requires remaining > 0
    ensures var n := Min(remaining, BUFFER_SIZE);
      && (pos + n > |file| ==> Copy(file, pos, remaining, sink, limit) == (sink, false))
      && (pos + n <= |file| && !Accepts(limit, |sink| + n) ==>
            Copy(file, pos, remaining, sink, limit) == (sink + file[pos..pos + Fits(limit, |sink|, n)], false))
  {
  }

  function Sum(cs: seq<nat>): nat {
    if cs == [] then 0 else cs[0] + Sum(cs[1..])
  }

  /** The sizes of the chunks a copy of `n` bytes transfers. */
  function Chunks(n: nat): seq<nat>
    decreases n
  {
    if n == 0 then [] else var c := Min(n, BUFFER_SIZE); [c] + Chunks(n - c)
  }

  /** A copy of `n` bytes takes ceil(n / BUFFER_SIZE) rounds: full buffers,
      then a last, non-empty, possibly partial one; together they are `n`
      bytes. */
  lemma {:induction false} ChunksShape(n: nat)
    ensures |Chunks(n)| == (n + BUFFER_SIZE - 1) / BUFFER_SIZE
    ensures forall i :: 0 <= i < |Chunks(n)| ==> 0 < Chunks(n)[i] <= BUFFER_SIZE
    ensures forall i :: 0 <= i < |Chunks(n)| - 1 ==> Chunks(n)[i] == BUFFER_SIZE
    ensures Sum(Chunks(n)) == n
    decreases n
  {
    if n > 0 {
      var c := Min(n, BUFFER_SIZE);
      ChunksShape(n - c);
      assert Chunks(n)[1..] == Chunks(n - c);
      assert Chunks(n - c) != [] ==> c == BUFFER_SIZE;
    }
  }

  /** After the chunks `done`, a copy of `n` more bytes takes one chunk and
      then the chunks of what is left. */
  lemma ChunksStep(done: seq<nat>, n: nat)
    requires n > 0
    ensures done + Chunks(n) == (done + [Min(n, BUFFER_SIZE)]) + Chunks(n - Min(n, BUFFER_SIZE))
    ensures done < done + Chunks(n)
  {
  }

  /** A `linkedit_data_command` as parsed: where its blob lies and how long
      it is, with the reader it was parsed from. */
  class LcLinkEditData {
    const reader: Reader
    /** Offset of the object file within the whole file (non-zero inside a
        fat archive). */
    const objectFileOffset: nat
    /** Offset of the blob from the start of the object file. */
    const dataoff: uint32
    /** Length of the blob. */
    const datasize: uint32

    constructor (reader: Reader, objectFileOffset: nat, dataoff: uint32, datasize: uint32)
      ensures this.reader == reader && this.objectFileOffset == objectFileOffset
      ensures this.dataoff == dataoff && this.datasize == datasize
    {
      this.reader := reader;
      this.objectFileOffset := objectFileOffset;
      this.dataoff := dataoff;
      this.datasize := datasize;
    }

    /** Reads `dataoff` then `datasize` at `baseOffset`, in byte order `e`;
        no byte of the blob itself is read. */
    static method Parse(reader: Reader, baseOffset: nat, objectFileOffset: nat, e: Endian)
      returns (r: Result<LcLinkEditData>)
      modifies reader
      ensures r.Ok? <==> baseOffset + 8 <= |reader.data|
      ensures r.Err? ==> r.error == Io
      ensures r.Ok? ==> WordsAt(reader.data, baseOffset, 2, e) == Some([r.value.dataoff, r.value.datasize])
      ensures r.Ok? ==> fresh(r.value) && r.value.reader == reader
      ensures r.Ok? ==> r.value.objectFileOffset == objectFileOffset
      ensures reader.pos == if baseOffset + 8 <= |reader.data| then baseOffset + 8
                            else if baseOffset + 4 <= |reader.data| then baseOffset + 4
                            else baseOffset
    {
      reader.Seek(baseOffset);
      var dataoff := reader.ReadU32(e);
      if dataoff.None? {
        return Err(Io);
      }
      var datasize := reader.ReadU32(e);
      if datasize.None? {
        return Err(Io);
      }
      ghost var ws := WordsAt(reader.data, baseOffset, 2, e).value;
      assert U32At(reader.data, baseOffset + 4 * 0, e) == Some(ws[0]);
      assert U32At(reader.data, baseOffset + 4 * 1, e) == Some(ws[1]);
      assert ws == [dataoff.value, datasize.value];
      var d := new LcLinkEditData(reader, objectFileOffset, dataoff.value, datasize.value);
      r := Ok(d);
    }

    /** Where the blob starts in the whole file. */
    function Start(): nat
      reads this
    {
      objectFileOffset + dataoff
    }

    /** One round of the copy, with `remaining` bytes still to go: fills the
        first `n` bytes of `tmp` from the reader and writes them to `out`.
        Fails on a short read, which reads nothing, or on a refused write,
        which keeps the part of the chunk the sink took. Either way it is the
        first round of Copy. */
    method CopyChunk(tmp: array<uint8>, n: nat, out: Sink, ghost remaining: nat) returns (ok: bool)
      requires 0 < remaining && n == Min(remaining, BUFFER_SIZE) <= tmp.Length
      modifies reader, tmp, out
      ensures ok <==> old(reader.pos) + n <= |reader.data| && Accepts(out.limit, |old(out.written)| + n)
      ensures reader.pos == if old(reader.pos) + n <= |reader.data| then old(reader.pos) + n else old(reader.pos)
      ensures ok ==> out.written == old(out.written) + reader.data[old(reader.pos)..reader.pos]
      ensures ok ==>
        Copy(reader.data, old(reader.pos), remaining, old(out.written), out.limit)
          == Copy(reader.data, reader.pos, remaining - n, out.written, out.limit)
      ensures !ok ==>
        Copy(reader.data, old(reader.pos), remaining, old(out.written), out.limit) == (out.written, false)
      ensures !ok ==> |old(out.written)| <= |out.written| < |old(out.written)| + n
      ensures out.chunks == if ok then old(out.chunks) + [n] else old(out.chunks)
    {
      ghost var from, sink := reader.pos, out.written;
      CopyStops(reader.data, from, remaining, sink, out.limit);
      ok := reader.ReadExact(tmp, n);
      if !ok {
        return;
      }
      ghost var f := Fits(out.limit, |out.written|, n);
      assert tmp[..n][..f] == reader.data[from..from + f];
      ok := out.WriteAll(tmp[..n]);
      if ok {
        CopyStep(reader.data, from, remaining, sink, out.limit);
      }
    }

    /** Copies the blob to `out`, at most BUFFER_SIZE bytes at a time through
        one buffer. */
    method ReadDataTo(out: Sink) returns (r: Result<()>)
      modifies reader, out
      ensures (out.written, r.Ok?) == Copy(reader.data, Start(), datasize, old(out.written), out.limit)
      ensures r.Err? ==> r.error == Io
      ensures |old(out.written)| <= |out.written| <= |old(out.written)| + datasize
      ensures r.Ok? ==> out.chunks == old(out.chunks) + Chunks(datasize)
      ensures r.Err? ==> out.chunks < old(out.chunks) + Chunks(datasize)
      ensures r.Ok? ==> reader.pos == Start() + datasize
      ensures r.Ok? && datasize > 0 ==>
        Start() + datasize <= |reader.data| && out.written == old(out.written) + reader.data[Start()..Start() + datasize]
      ensures r.Err? ==>
        var k := |out.written| - |old(out.written)|;
        BUFFER_SIZE * (|out.chunks| - |old(out.chunks)|) == k - k % BUFFER_SIZE
      ensures r.Err? ==>
        var w := BUFFER_SIZE * (|out.chunks| - |old(out.chunks)|);
        && 0 <= w < datasize
        && var n := Min(datasize - w, BUFFER_SIZE);
           reader.pos == if Start() + w + n <= |reader.data| then Start() + w + n else Start() + w
    {
      var start := objectFileOffset + dataoff;
      reader.Seek(start);
      var remaining: nat := datasize;
      var tmp := new uint8[BUFFER_SIZE];
      ghost var sink := out.written;
      ghost var chunks := out.chunks;
      while remaining > 0
        invariant remaining <= datasize
        invariant reader.pos == start + (datasize - remaining)
        invariant remaining == datasize ==> out.written == sink
        invariant remaining < datasize ==>
          reader.pos <= |reader.data| && out.written == sink + reader.data[start..reader.pos]
        invariant Copy(reader.data, start, datasize, sink, out.limit)
               == Copy(reader.data, reader.pos, remaining, out.written, out.limit)
        invariant out.chunks + Chunks(remaining) == chunks + Chunks(datasize)
        invariant remaining > 0 ==> datasize - remaining == BUFFER_SIZE * (|out.chunks| - |chunks|)
        decreases remaining
      {
        var toRead := Min(remaining, BUFFER_SIZE);
        ghost var pos := reader.pos;
        ChunksStep(out.chunks, remaining);
        var ok := CopyChunk(tmp, toRead, out, remaining);
        if !ok {
          WholeChunks(|out.chunks| - |chunks|, |out.written| - |sink| - (datasize - remaining));
          return Err(Io);
        }
        SliceGrows(reader.data, sink, start, pos, reader.pos);
        remaining := remaining - toRead;
      }
      assert out.chunks + Chunks(0) == out.chunks;
      r := Ok(());
    }
  }
}
