# Mach-O decoding core of schnauzer, in Dafny

This project models the binary-decoding core of schnauzer, a reader for
Apple's Mach-O object-file format. It covers four pieces:

- **CPU identification** (`machine.dfy`, module `Machines`). These are the
  cpu type and subtype constants of `<mach/machine.h>`, together with the
  capability-bit mask of a subtype. `NewCpu` classifies a (cpu type, cpu
  subtype) pair as x86_64, x86_64h, arm64 or arm64e, or as nothing. It
  matches on the subtype with its capability bits cleared.
- **Mach header decode** (`mach_header.dfy`, module `MachHeaders`).
  - The magic is always read big-endian, and an unknown magic is an error.
  - A reverse (CIGAM) magic switches every later field to little-endian.
  - Then six words follow: cputype, cpusubtype, filetype, ncmds, sizeofcmds
    and flags. A 64-bit magic adds a seventh word, `reserved`.
  - The derived queries `cpu_subtype`, `masked_cpu_subtype`,
    `feature_flags` and `is_64` are modelled too.
  - `ParseHeader` is the imperative parse over a `Reader`, proved equal to
    the pure specification `HeaderAt`.
- **`linkedit_data_command`** (`linkedit_data_command.dfy`, module
  `LinkEdit`).
  - `Parse` seeks to the command and reads `dataoff` then `datasize`.
  - `ReadDataTo` copies the blob those two words locate. It seeks to
    `object_file_offset + dataoff` and loops, moving at most 4096 bytes per
    round through one buffer into a `Sink`.
  - The loop is proved against the recursive specification `Copy` and
    against `Chunks`, the list of chunk sizes. Lemmas about both state what
    gets copied, when the copy succeeds, and where it stops on failure.
- **`thread_command`** (`thread_command.dfy`, module `Threads`). This is
  the fixed `flavor`, `count` record, decoded in a given byte order.

Two files hold what these pieces share:

- `bytes.dfy` (module `Bytes`) is used by all four. It holds the `u32`
  reads and writes in either byte order, and the outcome types: `Option`,
  `Result`, and `Error`, which is `BadMagic(raw)` or `Io`.
- `reader.dfy` (module `Readers`) is used by the header and
  `linkedit_data_command` decoders. It holds the shared seekable cursor, a
  class `Reader` with the file bytes and one position. An `LcLinkEditData`
  keeps a reference to the reader it was parsed from, as the source keeps
  its shared reader handle.

`Threads.ThreadAt` does not go through a `Reader`. It is a pure function of
the bytes and a position that returns the record and the position after it.
The reader-based call of that decode belongs to the load-command
dispatcher, which is left out.

How values are represented:

- Bytes and header words are bounded integers (`uint8`, `uint32`).
- The cpu type and subtype logic works on `bv32`, the same 32-bit patterns
  the source's `i32` newtypes hold.

## Model

| member | source | states |
|---|---|---|
| Machines.SixtyFourBitTypes | src/types/primitives/machine.rs:11-17 | CPU_TYPE_X86_64 is 0x01000007 and CPU_TYPE_ARM64 is 0x0100000c; each 64-bit type differs from its 32-bit base in exactly the ABI64 bit, which the bases lack |
| Machines.Masked | src/types/primitives/machine.rs:98 | the masked subtype has no capability bit, and together with the capability bits it gives back the subtype |
| Machines.MaskedIdempotent | src/types/primitives/machine.rs:98 | clearing the capability bits twice is clearing them once |
| Machines.MaskedIgnoresFeatures | src/types/primitives/machine.rs:121 | adding capability bits does not change the masked subtype, and the base and capability parts are disjoint |
| Machines.NewSubtypeX86_64 | src/types/primitives/machine.rs:97-103 | x86_64 exactly when the masked subtype is 3, x86_64h exactly when it is 8 |
| Machines.NewSubtypeArm64 | src/types/primitives/machine.rs:120-126 | arm64 exactly when the masked subtype is 0, arm64e exactly when it is 2 |
| Machines.NewCpu | src/types/primitives/machine.rs:58-71 | a result only for CPU_TYPE_X86_64 and CPU_TYPE_ARM64; for each of them, a result exactly when the subtype classifies, wrapping that subtype |
| Machines.Machine.Cpu | src/types/primitives/machine.rs:43-47 | the full classification table: each of the four named architectures exactly for its cpu type and masked subtype |
| Machines.ThirtyTwoBitTypesUnnamed | src/types/primitives/machine.rs:59-71 | the 32-bit CPU_TYPE_X86 and CPU_TYPE_ARM never classify, whatever the subtype |
| Machines.UnnamedSubtypes | src/types/primitives/machine.rs:120-126 | every other masked subtype gives None, in particular ARM64_V8 (1) and X86_ARCH1 (4) |
| Machines.ClassificationIgnoresFeatures | src/types/primitives/machine.rs:97-126 | subtypes with the same masked value classify identically, for both subtype kinds and for any cpu type |
| Machines.Arm64EWithCapabilities | src/types/primitives/machine.rs:120-126 | an arm64e subtype carrying capability bits is still arm64 / arm64e |
| Bytes.EncodeU32 | src/types/mach_header.rs:29 | four bytes, which decode back to the word in the same byte order |
| Bytes.EncodeDecodeU32 | src/types/mach_header.rs:37-42 | decoding loses nothing: re-encoding the word gives back the four bytes |
| Bytes.U32At | src/types/mach_header.rs:29 | a word exactly when four bytes remain at the position |
| Bytes.WordsAt | src/types/mach_header.rs:37-42 | consecutive words exactly when the data holds them all, the i-th being the word at pos + 4i |
| Bytes.WordsRoundTrip | src/types/mach_header.rs:37-42 | words written with EncodeWords anywhere in the data are read back |
| Bytes.WordsEncodeBack | src/types/mach_header.rs:37-42 | re-encoding the words read gives back the bytes they were read from |
| Readers.Reader.Seek | src/types/load_command/linkedit_data_command.rs:31 | the position becomes the target, which may lie past the end |
| Readers.Reader.ReadU32 | src/types/mach_header.rs:29 | the result is the word at the old position, and the position advances by 4 exactly when there was one |
| Readers.Reader.ReadExact | src/types/load_command/linkedit_data_command.rs:61 | succeeds exactly when n bytes remain; then the buffer prefix is that slice of the file and the position advances by n; otherwise nothing changes |
| MachHeaders.MagicFrom | src/types/mach_header.rs:30 | a magic exactly for the four signature values, with that value; None when no magic has the value |
| MachHeaders.MagicFromValue | src/types/mach_header.rs:30 | every magic is recognised from its own value |
| MachHeaders.ReverseMagicIsSwappedMagic | src/types/mach_header.rs:32-34 | a magic written little-endian and read big-endian is the same-width magic of the other byte order, so reverse magics mark little-endian files |
| MachHeaders.FieldOrder | src/types/mach_header.rs:32-35 | the fields are little-endian exactly for a reverse magic |
| MachHeaders.HeaderSize | src/types/mach_header.rs:37-47 | 28 bytes for a 32-bit magic, 32 for a 64-bit one: the magic and six or seven words |
| MachHeaders.HeaderAt | src/types/mach_header.rs:24-59 | a header only when all its bytes are there, with reserved 0 for 32-bit magics and its magic as the big-endian first word; a bad magic carries the raw word read |
| MachHeaders.HeaderErrors | src/types/mach_header.rs:29-46 | an I/O error exactly when the input ends before the magic or before the last field the magic calls for; a bad-magic error exactly when the first word names no magic |
| MachHeaders.HeaderRoundTrip | src/types/mach_header.rs:23-58 | a header written in its magic's byte order is decoded to the same fields at whatever offset it stands, whatever precedes or follows it |
| MachHeaders.HeaderEncodeBack | src/types/mach_header.rs:24-59 | a decoded header re-encodes to exactly the 28 or 32 bytes it was read from |
| MachHeaders.ShortFields | src/types/mach_header.rs:37-46 | a short read of any field after a valid magic makes the whole parse an I/O error, with no partial header |
| MachHeaders.ReadField | src/types/mach_header.rs:37-46 | one field read: the k-th word after the magic and a 4-byte advance, or the I/O error of the whole parse |
| MachHeaders.ParseHeader | src/types/mach_header.rs:24-59 | the imperative parse returns HeaderAt of the start position; it consumes 28 or 32 bytes on success, 4 on a bad magic, and the whole words available on a short input |
| MachHeaders.MachHeader.CpuSubtype | src/types/mach_header.rs:101-103 | no capability bit is left, and with the capability bits it gives back the raw subtype |
| MachHeaders.MachHeader.MaskedCpuSubtype | src/types/mach_header.rs:63-66 | no capability bit, whatever the subtype helper returns |
| MachHeaders.MachHeader.FeatureFlags | src/types/mach_header.rs:68-70 | only capability bits, disjoint from cpu_subtype() and completing it to the raw subtype |
| MachHeaders.Is64FollowsCpuType | src/types/mach_header.rs:72-74 | is_64 does not depend on the magic; it holds for the 64-bit cpu types and fails for the 32-bit ones |
| MachHeaders.CpuSubtypeIdempotent | src/types/mach_header.rs:101-103 | clearing the mask from cpu_subtype() changes nothing, and it equals masked_cpu_subtype() |
| LinkEdit.Sink.WriteAll | src/types/load_command/linkedit_data_command.rs:62 | fails exactly when the sink's capacity would be exceeded; on success the whole chunk is appended and its length recorded; on failure the part of the chunk that fits stays written and is not rolled back |
| LinkEdit.CopyAppendsFile | src/types/load_command/linkedit_data_command.rs:54-74 | the sink only grows, by at most the remaining count, and what it gains is the file slice from the start position |
| LinkEdit.CopySucceeds | src/types/load_command/linkedit_data_command.rs:50-76 | success exactly when there is nothing to copy, or the file holds the whole range and the sink takes it all; the sink then gains exactly the file bytes of that range, in order, and nothing else |
| LinkEdit.CopyFailsAtChunk | src/types/load_command/linkedit_data_command.rs:58-73 | a failed copy leaves less than the whole range. Its completed rounds moved whole 4096-byte chunks. After a short read of the next chunk nothing more was written. After a refused write of that chunk, exactly the part the sink took was written, a proper prefix of the chunk |
| LinkEdit.ChunksShape | src/types/load_command/linkedit_data_command.rs:58-73 | a copy of n bytes takes ceil(n/4096) rounds; each round moves 1 to 4096 bytes, all but the last exactly 4096, and together they move n |
| LinkEdit.LcLinkEditData.Parse | src/types/load_command/linkedit_data_command.rs:21-43 | succeeds exactly when 8 bytes remain at base_offset; dataoff and datasize are the two words there in the given order; object_file_offset and the reader are stored unchanged; the position ends after the words that were read |
| LinkEdit.LcLinkEditData.CopyChunk | src/types/load_command/linkedit_data_command.rs:59-71 | one round: read_exact into the buffer, then write_all. On success the sink gains the next file slice; a short read writes nothing; a refused write keeps the part the sink took. Either way the round is the first step of Copy |
| LinkEdit.LcLinkEditData.ReadDataTo | src/types/load_command/linkedit_data_command.rs:45-77 | the sink and outcome are Copy from object_file_offset + dataoff over datasize bytes. On success the blob lies within the file and the sink gained exactly `file[object_file_offset + dataoff ..][..datasize]`, nothing else, and it recorded exactly Chunks(datasize); on failure it recorded a proper prefix of it. The final reader position is stated for both outcomes: on failure it is after the completed chunks, plus the failing chunk when that chunk was read. The completed chunks are the whole-chunk part of what the sink gained, so the position follows from the output |
| Threads.ThreadAt | src/types/load_command/thread_command.rs:9-16 | a record exactly when 8 bytes remain: flavor is the first word, count the second, and decoding stops 8 bytes later, leaving the thread state undecoded |
| Threads.ThreadRoundTrip | src/types/load_command/thread_command.rs:10-13 | a record written in a byte order is read back with the same two fields, whatever surrounds it |
| Threads.ThreadEncodeBack | src/types/load_command/thread_command.rs:10-13 | a decoded record re-encodes to exactly the 8 bytes it was read from |

## Left out

- The `Debug` and `Display` impls in every file: they only format output.
- `src/commands/helpers.rs`: it opens paths, prints, and exits the process. None of that is decoding.
- The `Rc<RefCell<…>>` sharing and borrow discipline of the reader. It becomes one `Reader` object that decoders receive or keep a reference to. Exclusive borrowing is a Rust ownership concern and is not modelled.
- The load-command dispatcher is not part of this model.
- The `Magic` type and the `utils` helpers are not part of this model either. They are modelled from `<mach-o/loader.h>` and `<mach/machine.h>`:
  - the four magic values;
  - `is_reverse`, which means a CIGAM magic;
  - `is_64`, which means a 64-bit magic, or for a cpu type, the ABI64 bit;
  - `masked_cpu_subtype`, which clears the bits of CPU_SUBTYPE_MASK 0xff000000.
- `CPUSubtype::masked` (src/types/primitives/machine.rs:98 and 121) is not part of this model either. `Machines.Masked` takes it to clear the bits of CPU_SUBTYPE_MASK 0xff000000, as `<mach/machine.h>` defines that mask.
- MachHeaders.MachHeader.FeatureFlags: `utils::feature_flags` is not part of this model. It is taken to return the cleared capability bits in place, without shifting them down.
- `scroll`'s error kinds and `std::io` error causes collapse to one `Io` error. `BadMagic` keeps the raw word, but no offset or other context.
- Readers.Reader.ReadExact, Readers.Reader.ReadU32 and LinkEdit.LcLinkEditData.Parse: after a short read, `std`'s `read_exact` may have consumed any number of the remaining bytes and leaves the buffer unspecified. The model reads nothing and leaves the position unchanged, which fixes the position these members state on their error paths.
- MachHeaders.ParseHeader: after a short field read, the model puts the position past the last whole word. The bytes of the partial word count as not consumed.
- Readers.Reader.Seek: seeking never fails. Any position is accepted, as on an in-memory or file cursor.
- LinkEdit.Sink.WriteAll: the output stream is one with a capacity limit. A write that would exceed it writes the part that fits and then fails. Other writers may fail for other reasons or after writing a different amount.
- LinkEdit.LcLinkEditData.ReadDataTo: it does not model the `u64` overflow of `object_file_offset + dataoff`, because offsets are unbounded naturals here. It does not model `datasize as usize` truncation either.
- `Machine::new` is the `Machine` datatype constructor, and the plain header accessors are the datatype's fields. Neither carries a separate contract.
