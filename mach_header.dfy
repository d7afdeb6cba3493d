/** The Mach-O file header (`struct mach_header` and `struct mach_header_64`
    of `<mach-o/loader.h>`): recognition of the magic, the byte order it
    selects, the fixed field layout, and the derived cpu-subtype queries. */
module MachHeaders {
  import opened Bytes
  import opened Machines
  import opened Readers

  const MH_MAGIC: uint32 := 0xfeed_face
  const MH_CIGAM: uint32 := 0xcefa_edfe
  const MH_MAGIC_64: uint32 := 0xfeed_facf
  const MH_CIGAM_64: uint32 := 0xcffa_edfe

  /** The four header signatures: word width times byte order. */
  datatype Magic = MhMagic | MhCigam | MhMagic64 | MhCigam64 {
    /** The first word of the file, read big-endian. */
    function Value(): uint32 {
      match this
      case MhMagic => MH_MAGIC
      case MhCigam => MH_CIGAM
      case MhMagic64 => MH_MAGIC_64
      case MhCigam64 => MH_CIGAM_64
    }

    /** The file stores its fields least significant byte first. */
    predicate IsReverse() {
      MhCigam? || MhCigam64?
    }

    /** The header is the 64-bit one, with a trailing reserved word. */
    predicate Is64() {
      MhMagic64? || MhCigam64?
    }

    /** The magic of the same width in the other byte order. */
    function Swapped(): (r: Magic)
      ensures r.Is64() == Is64() && r.IsReverse() != IsReverse()
    {
      match this
      case MhMagic => MhCigam
      case MhCigam => MhMagic
      case MhMagic64 => MhCigam64
      case MhCigam64 => MhMagic64
    }
  }

  /** Recognition of a first word as a magic. */
  function MagicFrom(raw: uint32): (r: Option<Magic>)
    ensures r.Some? ==> r.value.Value() == raw
    ensures r.None? ==> forall m: Magic :: m.Value() != raw
  {
    if raw == MH_MAGIC then Some(MhMagic)
    else if raw == MH_CIGAM then Some(MhCigam)
    else if raw == MH_MAGIC_64 then Some(MhMagic64)
    else if raw == MH_CIGAM_64 then Some(MhCigam64)
    else None
  }

  /** Every magic is recognised from its own value. */
  lemma MagicFromValue(m: Magic)
    ensures MagicFrom(m.Value()) == Some(m)
  {
  }

  /** A file written least significant byte first shows, through the
      big-endian read of its first word, the reverse magic of the same width;
      this is why a reverse magic selects little-endian fields. */
  lemma ReverseMagicIsSwappedMagic(m: Magic)
    ensures MagicFrom(DecodeU32(EncodeU32(m.Value(), Little), Big)) == Some(m.Swapped())
  {
    match m
    case MhMagic => EncodeDecodeU32([0xce, 0xfa, 0xed, 0xfe], Little);
    case MhCigam => EncodeDecodeU32([0xfe, 0xed, 0xfa, 0xce], Little);
    case MhMagic64 => EncodeDecodeU32([0xcf, 0xfa, 0xed, 0xfe], Little);
    case MhCigam64 => EncodeDecodeU32([0xfe, 0xed, 0xfa, 0xcf], Little);
  }

  /** The byte order of every field after the magic. */
  function FieldOrder(m: Magic): (e: Endian)
    ensures e == Little <==> m.IsReverse()
  {
    if m.IsReverse() then Little else Big
  }

  /** Number of words after the magic. */
  function FieldCount(m: Magic): nat {
    if m.Is64() then 7 else 6
  }

  /** Bytes the header occupies: 28, or 32 for a 64-bit magic. */
  function HeaderSize(m: Magic): (n: nat)
    ensures n == 4 + 4 * FieldCount(m)
    ensures n == if m.Is64() then 32 else 28
  {
    4 + 4 * FieldCount(m)
  }

  /** The cpu-subtype base identifier, as the `utils` helper of the same
      name computes it: the subtype with its capability bits cleared. */
  function UtilsMaskedCpuSubtype(s: bv32): bv32 {
    Masked(s)
  }

  datatype MachHeader = MachHeader(
    magic: Magic,
    cputype: uint32,
    cpusubtype: uint32,
    filetype: uint32,
    ncmds: uint32,
    sizeofcmds: uint32,
    flags: uint32,
    reserved: uint32)  // read only from 64-bit headers
  {
    /** What a parse can produce: a 32-bit header has no reserved word. */
    predicate Valid() {
      !magic.Is64() ==> reserved == 0
    }

    /** The subtype without its capability bits. */
    function CpuSubtype(): (r: bv32)
      ensures r & CPU_SUBTYPE_MASK == 0
      ensures r | FeatureBits(cpusubtype as bv32) == cpusubtype as bv32
    {
      Masked(cpusubtype as bv32)
    }

    /** The base subtype as the helper reports it, with the capability bits
        cleared once more: no capability bit survives, whatever the helper
        returns. */
    function MaskedCpuSubtype(): (r: bv32)
      ensures r & CPU_SUBTYPE_MASK == 0
    {
      Masked(UtilsMaskedCpuSubtype(cpusubtype as bv32))
    }

    /** The capability bits stripped from the subtype. */
    function FeatureFlags(): (r: bv32)
      ensures r & !CPU_SUBTYPE_MASK == 0
      ensures r & CpuSubtype() == 0 && r | CpuSubtype() == cpusubtype as bv32
    {
      FeatureBits(cpusubtype as bv32)
    }

    /** The cpu type has the 64-bit ABI bit. */
    predicate Is64() {
      cputype as bv32 & CPU_ARCH_ABI64 != 0
    }
  }

  /** The words after the magic, in file order. */
  function FieldWords(h: MachHeader): (ws: seq<uint32>)
    ensures |ws| == FieldCount(h.magic)
  {
    [h.cputype, h.cpusubtype, h.filetype, h.ncmds, h.sizeofcmds, h.flags]
      + if h.magic.Is64() then [h.reserved] else []
  }

  /** The header whose words after the magic are `ws`. */
  function FromWords(m: Magic, ws: seq<uint32>): MachHeader
    requires |ws| == FieldCount(m)
  {
    MachHeader(m, ws[0], ws[1], ws[2], ws[3], ws[4], ws[5], if m.Is64() then ws[6] else 0)
  }

  /** FromWords and FieldWords are inverse. */
  lemma FieldWordsFromWords(m: Magic, ws: seq<uint32>)
    requires |ws| == FieldCount(m)
    ensures FieldWords(FromWords(m, ws)) == ws
  {
    if m.Is64() {
      assert ws == [ws[0], ws[1], ws[2], ws[3], ws[4], ws[5]] + [ws[6]];
    } else {
      assert ws == [ws[0], ws[1], ws[2], ws[3], ws[4], ws[5]] + [];
    }
  }

  /** The header as it is stored: the magic big-endian, then the fields in
      the byte order the magic selects. */
  function EncodeHeader(h: MachHeader): (r: seq<uint8>)
    ensures |r| == HeaderSize(h.magic)
  {
    EncodeU32(h.magic.Value(), Big) + EncodeWords(FieldWords(h), FieldOrder(h.magic))
  }

  /** The `k`-th word after the magic at `pos`, in byte order `e`. */
  function FieldAt(data: seq<uint8>, pos: nat, e: Endian, k: nat): uint32
    requires pos + 8 + 4 * k <= |data|
  {
    U32At(data, pos + 4 + 4 * k, e).value
  }

  /** The header at `pos`: the magic read big-endian, then cputype,
      cpusubtype, filetype, ncmds, sizeofcmds, flags and, for a 64-bit magic
      only, reserved, in the byte order the magic selects. */
  function HeaderAt(data: seq<uint8>, pos: nat): (r: Result<MachHeader>)
    ensures r.Ok? ==> r.value.Valid() && pos + HeaderSize(r.value.magic) <= |data|
    ensures r.Ok? ==> U32At(data, pos, Big) == Some(r.value.magic.Value())
    ensures r.Err? && r.error.BadMagic? ==> U32At(data, pos, Big) == Some(r.error.raw)
  {
    match U32At(data, pos, Big)
    case None => Err(Io)
    case Some(raw) =>
      match MagicFrom(raw)
      case None => Err(BadMagic(raw))
      case Some(m) =>
        if pos + HeaderSize(m) <= |data| then
          var e := FieldOrder(m);
          Ok(MachHeader(m, FieldAt(data, pos, e, 0), FieldAt(data, pos, e, 1),
                        FieldAt(data, pos, e, 2), FieldAt(data, pos, e, 3),
                        FieldAt(data, pos, e, 4), FieldAt(data, pos, e, 5),
                        if m.Is64() then FieldAt(data, pos, e, 6) else 0))
        else Err(Io)
  }

  /** A recognised magic followed by the words it calls for is the header
      made of those words. */
  lemma HeaderAtWords(data: seq<uint8>, pos: nat, m: Magic, ws: seq<uint32>)
    requires U32At(data, pos, Big) == Some(m.Value())
    requires WordsAt(data, pos + 4, FieldCount(m), FieldOrder(m)) == Some(ws)
    ensures HeaderAt(data, pos) == Ok(FromWords(m, ws))
  {
    MagicFromValue(m);
  }

  /** The two ways the header fails: an I/O error exactly when the input ends
      before the magic or before the last field the magic calls for, and a
      bad-magic error exactly when four bytes are there but name no magic. */
  lemma HeaderErrors(data: seq<uint8>, pos: nat)
    ensures HeaderAt(data, pos) == Err(Io) <==>
      pos + 4 > |data| ||
      (var m := MagicFrom(U32At(data, pos, Big).value);
       m.Some? && pos + HeaderSize(m.value) > |data|)
    ensures HeaderAt(data, pos).Err? && HeaderAt(data, pos).error.BadMagic? <==>
      pos + 4 <= |data| && MagicFrom(U32At(data, pos, Big).value).None?
  {
  }

  /** Round trip: a header written in the byte order of its magic is read
      back with the same field values wherever it stands, whatever surrounds
      it. */
  lemma HeaderRoundTrip(h: MachHeader, before: seq<uint8>, rest: seq<uint8>)
    requires h.Valid()
    ensures HeaderAt(before + EncodeHeader(h) + rest, |before|) == Ok(h)
  {
    var e := FieldOrder(h.magic);
    var p := |before|;
    var head := EncodeU32(h.magic.Value(), Big);
    var data := before + EncodeHeader(h) + rest;
    assert data == before + head + EncodeWords(FieldWords(h), e) + rest;
    assert data[p..p + 4] == head;
    assert data[p + 4..p + 4 + 4 * FieldCount(h.magic)] == EncodeWords(FieldWords(h), e);
    WordsRoundTrip(data, p + 4, FieldWords(h), e);
    HeaderAtWords(data, p, h.magic, FieldWords(h));
    assert FromWords(h.magic, FieldWords(h)) == h;
  }

  /** The converse: a header that was read is exactly the bytes it was read
      from, so no byte of those 28 or 32 is ignored. */
  lemma HeaderEncodeBack(data: seq<uint8>, pos: nat)
    requires HeaderAt(data, pos).Ok?
    ensures var h := HeaderAt(data, pos).value;
            EncodeHeader(h) == data[pos..pos + HeaderSize(h.magic)]
  {
    var h := HeaderAt(data, pos).value;
    var m := h.magic;
    var n := FieldCount(m);
    var e := FieldOrder(m);
    WordThenWordsEncodeBack(data, pos, Big, n, e);
    var ws := WordsAt(data, pos + 4, n, e).value;
    HeaderAtWords(data, pos, m, ws);
    FieldWordsFromWords(m, ws);
    assert U32At(data, pos, Big).value == m.Value();
  }

  /** `is_64` is a property of the cpu type alone: a header with a 32-bit
      magic may still describe a 64-bit cpu, and changing the magic never
      changes the answer. */
  lemma Is64FollowsCpuType(h: MachHeader, m: Magic)
    ensures h.(magic := m).Is64() == h.Is64()
    ensures h.cputype as bv32 == CPU_TYPE_X86_64 || h.cputype as bv32 == CPU_TYPE_ARM64 ==> h.Is64()
    ensures h.cputype as bv32 == CPU_TYPE_X86 || h.cputype as bv32 == CPU_TYPE_ARM ==> !h.Is64()
  {
  }

  /** Clearing the mask from `cpu_subtype()` changes nothing, and it agrees
      with `masked_cpu_subtype()`. */
  lemma CpuSubtypeIdempotent(h: MachHeader)
    ensures Masked(h.CpuSubtype()) == h.CpuSubtype()
    ensures h.MaskedCpuSubtype() == h.CpuSubtype()
  {
  }

  /** Where the reader stands after a short read: past the last whole word
      that was still available from `start`. */
  function AfterWholeWords(len: nat, start: nat): nat {
    if start <= len then start + (len - start) / 4 * 4 else start
  }

  /** A short read of the `k`-th word after a recognised magic: the whole
      parse fails with an I/O error, and the reader stands after the last
      whole word. */
  lemma ShortFields(data: seq<uint8>, start: nat, m: Magic, k: nat)
    requires U32At(data, start, Big) == Some(m.Value())
    requires k < FieldCount(m) && start + 4 + 4 * k <= |data| < start + 8 + 4 * k
    ensures HeaderAt(data, start) == Err(Io)
    ensures AfterWholeWords(|data|, start) == start + 4 + 4 * k
  {
  }

  /** Reads the `k`-th field after the magic at `start`: either that word,
      or the short read that makes the whole header an I/O error. */
  method ReadField(reader: Reader, e: Endian, ghost start: nat, ghost m: Magic, ghost k: nat)
    returns (w: Option<uint32>)
    requires U32At(reader.data, start, Big) == Some(m.Value())
    requires e == FieldOrder(m) && k < FieldCount(m)
    requires reader.pos == start + 4 + 4 * k <= |reader.data|
    modifies reader
    ensures w.Some? ==> start + 8 + 4 * k <= |reader.data| && w.value == FieldAt(reader.data, start, e, k)
    ensures w.Some? ==> reader.pos == old(reader.pos) + 4
    ensures w.None? ==> HeaderAt(reader.data, start) == Err(Io)
    ensures w.None? ==> reader.pos == AfterWholeWords(|reader.data|, start)
  {
    w := reader.ReadU32(e);
    if w.None? {
      ShortFields(reader.data, start, m, k);
    }
  }

  /** Parses the header at the reader's position. */
  method ParseHeader(reader: Reader) returns (r: Result<MachHeader>)
    modifies reader
    ensures r == HeaderAt(reader.data, old(reader.pos))
    ensures r.Ok? ==> reader.pos == old(reader.pos) + HeaderSize(r.value.magic)
    ensures r.Err? && r.error.BadMagic? ==> reader.pos == old(reader.pos) + 4
    ensures r == Err(Io) ==> reader.pos == AfterWholeWords(|reader.data|, old(reader.pos))
  {
    ghost var start := reader.pos;
    var ctx := Big;

    var raw := reader.ReadU32(ctx);
    if raw.None? {
      assert start <= |reader.data| ==> (|reader.data| - start) / 4 == 0;
      return Err(Io);
    }
    var found := MagicFrom(raw.value);
    if found.None? {
      return Err(BadMagic(raw.value));
    }
    var magic := found.value;

    if magic.IsReverse() {
      ctx := Little;
    }

    var cputype := ReadField(reader, ctx, start, magic, 0);
    if cputype.None? {
      return Err(Io);
    }
    var cpusubtype := ReadField(reader, ctx, start, magic, 1);
    if cpusubtype.None? {
      return Err(Io);
    }
    var filetype := ReadField(reader, ctx, start, magic, 2);
    if filetype.None? {
      return Err(Io);
    }
    var ncmds := ReadField(reader, ctx, start, magic, 3);
    if ncmds.None? {
      return Err(Io);
    }
    var sizeofcmds := ReadField(reader, ctx, start, magic, 4);
    if sizeofcmds.None? {
      return Err(Io);
    }
    var flags := ReadField(reader, ctx, start, magic, 5);
    if flags.None? {
      return Err(Io);
    }

    var reserved: uint32 := 0;
    if magic.Is64() {
      var word := ReadField(reader, ctx, start, magic, 6);
      if word.None? {
        return Err(Io);
      }
      reserved := word.value;
    }

    r := Ok(MachHeader(magic, cputype.value, cpusubtype.value, filetype.value,
                       ncmds.value, sizeofcmds.value, flags.value, reserved));
  }
}
