/** The LC_THREAD and LC_UNIXTHREAD load commands of `<mach-o/loader.h>`:
    the `flavor` and `count` words that follow the `cmd`/`cmdsize` prefix of
    `struct thread_command` and precede the register state of the initial
    thread. Only those two words are decoded; the state that follows is
    not. */
module Threads {
  import opened Bytes

  /** Bytes the `flavor` and `count` words occupy. */
  const FLAVOR_COUNT_SIZE: nat := 8

  datatype LcThread = LcThread(flavor: uint32, count: uint32)

  /** The record at `pos` in byte order `e`, with the position just after
      it; an I/O error when fewer than eight bytes remain. */
  function ThreadAt(data: seq<uint8>, pos: nat, e: Endian): (r: Result<(LcThread, nat)>)
    ensures r.Ok? <==> pos + FLAVOR_COUNT_SIZE <= |data|
    ensures r.Err? ==> r.error == Io
    ensures r.Ok? ==> r.value.1 == pos + FLAVOR_COUNT_SIZE
    ensures r.Ok? ==> U32At(data, pos, e) == Some(r.value.0.flavor)
    ensures r.Ok? ==> U32At(data, pos + 4, e) == Some(r.value.0.count)
  {
    match WordsAt(data, pos, 2, e)
    case None => Err(Io)
    case Some(ws) =>
      assert U32At(data, pos + 4 * 1, e) == Some(ws[1]);
      Ok((LcThread(ws[0], ws[1]), pos + FLAVOR_COUNT_SIZE))
  }

  /** The record as it is stored in byte order `e`. */
  function EncodeThread(t: LcThread, e: Endian): (r: seq<uint8>)
    ensures |r| == FLAVOR_COUNT_SIZE
  {
    EncodeWords([t.flavor, t.count], e)
  }

  /** Round trip: a record written in byte order `e` is read back, and the
      read stops right after it, whatever surrounds it. */
  lemma ThreadRoundTrip(t: LcThread, e: Endian, before: seq<uint8>, after: seq<uint8>)
    ensures ThreadAt(before + EncodeThread(t, e) + after, |before|, e) == Ok((t, |before| + FLAVOR_COUNT_SIZE))
  {
    var data := before + EncodeThread(t, e) + after;
    assert data[|before|..|before| + 4 * 2] == EncodeThread(t, e);
    WordsRoundTrip(data, |before|, [t.flavor, t.count], e);
  }

  /** The converse: a decoded record re-encodes to exactly the eight bytes it
      was read from. */
  lemma ThreadEncodeBack(data: seq<uint8>, pos: nat, e: Endian)
    requires ThreadAt(data, pos, e).Ok?
    ensures EncodeThread(ThreadAt(data, pos, e).value.0, e) == data[pos..pos + FLAVOR_COUNT_SIZE]
  {
    WordsEncodeBack(data, pos, 2, e);
    var ws := WordsAt(data, pos, 2, e).value;
    assert ws == [ws[0], ws[1]];
  }
}
