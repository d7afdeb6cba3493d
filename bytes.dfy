/** Fixed-width words in a byte stream: the big- and little-endian `u32`
    reads that every Mach-O structure is built from, and the outcome types
    shared by the decoders. */
module Bytes {

  datatype Option<+T> = None | Some(value: T)

  /** The ways a decode or an extraction fails. */
  datatype Error =
    | BadMagic(raw: uint32)  // the first word is not a Mach-O magic
    | Io                   // a short read or a failed write

  datatype Result<+T> = Ok(value: T) | Err(error: Error)

  /** An unsigned 8-bit and an unsigned 32-bit integer. */
  type uint8 = x: int | 0 <= x < 0x100
  type uint32 = x: int | 0 <= x < 0x1_0000_0000

  /** Byte order of the multi-byte fields of a file. */
  datatype Endian = Big | Little

  /** The word whose bytes, most significant first, are `b3 b2 b1 b0`. */
  function Word(b3: uint8, b2: uint8, b1: uint8, b0: uint8): uint32 {
    ((b3 * 0x100 + b2) * 0x100 + b1) * 0x100 + b0
  }

  /** The 32-bit word stored in four bytes in byte order `e`. */
  function DecodeU32(b: seq<uint8>, e: Endian): uint32
    requires |b| == 4
  {
    match e
    case Big => Word(b[0], b[1], b[2], b[3])
    case Little => Word(b[3], b[2], b[1], b[0])
  }

  /** The four bytes that store `x` in byte order `e`. */
  function EncodeU32(x: uint32, e: Endian): (r: seq<uint8>)
    ensures |r| == 4
    ensures DecodeU32(r, e) == x
  {
    var x1 := x / 0x100;
    var x2 := x1 / 0x100;
    var b3, b2, b1, b0 := x2 / 0x100, x2 % 0x100, x1 % 0x100, x % 0x100;
    match e
    case Big => [b3, b2, b1, b0]
    case Little => [b0, b1, b2, b3]
  }

  /** Decoding loses nothing: the bytes are recovered from the word. */
  lemma EncodeDecodeU32(b: seq<uint8>, e: Endian)
    requires |b| == 4
    ensures EncodeU32(DecodeU32(b, e), e) == b
  {
    var x := DecodeU32(b, e);
    var hi: int, mid: int, lo: int := if e == Big then b[0] else b[3], if e == Big then b[1] else b[2], if e == Big then b[2] else b[1];
    assert x / 0x100 == (hi * 0x100 + mid) * 0x100 + lo;
    assert x / 0x100 / 0x100 == hi * 0x100 + mid;
  }

  /** The word at `pos`, or None when fewer than four bytes remain there. */
  function U32At(data: seq<uint8>, pos: nat, e: Endian): (r: Option<uint32>)
    ensures r.Some? <==> pos + 4 <= |data|
  {
    if pos + 4 <= |data| then Some(DecodeU32(data[pos..pos + 4], e)) else None
  }

  /** `n` consecutive words from `pos`, or None when the data ends before the
      last of them. */
  function WordsAt(data: seq<uint8>, pos: nat, n: nat, e: Endian): (r: Option<seq<uint32>>)
    ensures r.Some? <==> pos + 4 * n <= |data|
    ensures r.Some? ==> |r.value| == n
    ensures r.Some? ==> forall i :: 0 <= i < n ==> U32At(data, pos + 4 * i, e) == Some(r.value[i])
    decreases n
  {
    if n == 0 then (if pos <= |data| then Some([]) else None)
    else
      match U32At(data, pos, e)
      case None => None
      case Some(w) =>
        match WordsAt(data, pos + 4, n - 1, e)
        case None => None
        case Some(ws) => Some([w] + ws)
  }

  /** The bytes of a sequence of words, each in byte order `e`. */
  function EncodeWords(ws: seq<uint32>, e: Endian): (r: seq<uint8>)
    ensures |r| == 4 * |ws|
  {
    if ws == [] then [] else EncodeU32(ws[0], e) + EncodeWords(ws[1..], e)
  }

  /** Words written with EncodeWords, wherever they sit in the data, are read
      back by WordsAt. */
  lemma {:induction false} WordsRoundTrip(data: seq<uint8>, pos: nat, ws: seq<uint32>, e: Endian)
    requires pos + 4 * |ws| <= |data|
    requires data[pos..pos + 4 * |ws|] == EncodeWords(ws, e)
    ensures WordsAt(data, pos, |ws|, e) == Some(ws)
    decreases |ws|
  {
    if ws != [] {
      var head, tail := EncodeU32(ws[0], e), EncodeWords(ws[1..], e);
      assert data[pos..pos + 4] == data[pos..pos + 4 * |ws|][..4] == head;
      assert data[pos + 4..pos + 4 * |ws|] == data[pos..pos + 4 * |ws|][4..] == tail;
      WordsRoundTrip(data, pos + 4, ws[1..], e);
      assert [ws[0]] + ws[1..] == ws;
    }
  }

  /** WordsAt loses nothing: re-encoding the words it reads gives back the
      bytes they were read from. */
  lemma {:induction false} WordsEncodeBack(data: seq<uint8>, pos: nat, n: nat, e: Endian)
    requires pos + 4 * n <= |data|
    ensures WordsAt(data, pos, n, e).Some?
    ensures EncodeWords(WordsAt(data, pos, n, e).value, e) == data[pos..pos + 4 * n]
    decreases n
  {
    if n > 0 {
      var ws := WordsAt(data, pos, n, e).value;
      var rest := WordsAt(data, pos + 4, n - 1, e).value;
      WordsEncodeBack(data, pos + 4, n - 1, e);
      assert ws[0] == DecodeU32(data[pos..pos + 4], e);
      EncodeDecodeU32(data[pos..pos + 4], e);
      assert ws[1..] == rest;
      assert EncodeWords(ws, e) == data[pos..pos + 4] + data[pos + 4..pos + 4 * n];
    }
  }

  /** A word followed by `n` words, read back from where they were read. */
  lemma WordThenWordsEncodeBack(data: seq<uint8>, pos: nat, e0: Endian, n: nat, e: Endian)
    requires pos + 4 + 4 * n <= |data|
    ensures U32At(data, pos, e0).Some? && WordsAt(data, pos + 4, n, e).Some?
    ensures EncodeU32(U32At(data, pos, e0).value, e0) + EncodeWords(WordsAt(data, pos + 4, n, e).value, e)
         == data[pos..pos + 4 + 4 * n]
  {
    WordsEncodeBack(data, pos + 4, n, e);
    EncodeDecodeU32(data[pos..pos + 4], e0);
    assert data[pos..pos + 4 + 4 * n] == data[pos..pos + 4] + data[pos + 4..pos + 4 + 4 * n];
  }
}
