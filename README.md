# pil-squasher, modelled in Dafny

pil-squasher converts a Qualcomm PIL firmware image between two layouts:

- **Split** turns one ELF image (`.mbn`) into a metadata file (`.mdt`) and one segment file (`.bNN`) per non-empty segment.
  - The `.mdt` holds the ELF header and the program header table at the offsets they have in the image.
  - After them come the bytes of every non-empty hash segment, in table order.
- **Squash** rebuilds the image from the `.mdt` and the `.bNN` files.
  - It writes the header and the table back.
  - It puts every non-empty segment at its `p_offset`.
  - A hash segment is read from the `.mdt`, at a cursor that starts at `p_filesz` of program header 0 and moves past each hash segment read.
  - Any other segment is read from the start of its own `.bNN` file.

The model has five modules:

- `EndianUtils` (`endian_utils.dfy`): byte swapping at 1, 2, 4 and 8 bytes, and the conversion from the file's byte order to the host's.
  - The host's byte order is a parameter here, not a compile-time constant.
  - The lemmas show that every field the tools read has the same value on either kind of host.
- `PilCommon` (`pil_common.dfy`): the shared helpers.
  - The hash-segment classifier.
  - Reads from input files, which are `seq<bv8>` values.
  - Writes to output files. An output file is an `OutFile` object whose `contents` the write methods update in place.
  - ELF identification.
  - Reading the ELF header and the program header table of either ELF class. The 32/64-bit dispatch is one model parameterised by `ElfClass`, with the System V gABI layouts.
- `PilSplitter` (`pil_splitter.dfy`) and `PilSquasher` (`pil_squasher.dfy`): each tool in two forms.
  - Imperative methods, with the loops of `split_impl` and `squash_impl`.
  - Specification functions (`SplitElf`, `SquashElf` and the per-segment steps) that the methods are proved against.
  - The properties of the tools are lemmas about those functions.
  - The `.bNN` files are a `map<nat, seq<bv8>>` keyed by program header index. A missing key is a file that does not exist.
- `RoundTrip` (`round_trip.dfy`): squash after split gives the image back.
  - The rebuilt image agrees with the original on every byte that the header, a program header or a non-empty segment covers.
  - Every other byte of it is zero, and it is never longer than the original.
  - It equals the original when those cover all of it.
  - The proof needs no assumption that segments do not overlap. Every write of either tool copies bytes of the original image to their own offsets (`Consistent`, `Agrees`).

Failures are values of `Result<T>`, with one `ErrorKind` per way an operation can fail: `NotElf`, `UnknownDataEncoding`, `UnsupportedClass`, `ShortRead`, `NotMdtFile` and `MissingSegmentFile`.

## Model

| member | source | states |
|---|---|---|
| EndianUtils.Byteswap8 | src/endian_utils.hpp:21-22 | definition of the 1-byte swap; its contract is `Byteswap8Identity` |
| EndianUtils.Byteswap16 | src/endian_utils.hpp:23-25 | definition of the 2-byte swap; its contract is `Byteswap16Reverses` |
| EndianUtils.Byteswap32 | src/endian_utils.hpp:26-33 | definition of the 4-byte swap; its contract is `Byteswap32Reverses` |
| EndianUtils.Byteswap64 | src/endian_utils.hpp:34-45 | definition of the 8-byte swap; its contract is `Byteswap64Reverses` |
| EndianUtils.FromFileEndian16 | src/endian_utils.hpp:50-56 | definition of the 2-byte conversion; its contracts are `FromFileEndianMatchingHost`, `FromFileEndianOtherHost` and `FromFileEndian16Value` |
| EndianUtils.FromFileEndian32 | src/endian_utils.hpp:50-56 | the same for 4 bytes (`FromFileEndian32Value`) |
| EndianUtils.FromFileEndian64 | src/endian_utils.hpp:50-56 | the same for 8 bytes (`FromFileEndian64Value`) |
| EndianUtils.Byteswap8Identity | src/endian_utils.hpp:21-22 | swapping a 1-byte value returns it unchanged |
| EndianUtils.Byteswap16Reverses | src/endian_utils.hpp:23-25 | byte k of the swapped 2-byte value is byte 1-k of the original |
| EndianUtils.Byteswap32Reverses | src/endian_utils.hpp:26-33 | byte k of the swapped 4-byte value is byte 3-k of the original |
| EndianUtils.Byteswap64Reverses | src/endian_utils.hpp:34-45 | byte k of the swapped 8-byte value is byte 7-k of the original |
| EndianUtils.ByteswapInvolution | src/endian_utils.hpp:19-47 | swapping twice gives the value back, at every width |
| EndianUtils.FromFileEndianMatchingHost | src/endian_utils.hpp:51-54 | a value from a file in the host's byte order is returned unchanged |
| EndianUtils.FromFileEndianOtherHost | src/endian_utils.hpp:55 | a value from a file in the other byte order is byte-swapped |
| EndianUtils.FromFileEndianInvolution | src/endian_utils.hpp:50-56 | for a fixed file byte order the conversion is its own inverse |
| EndianUtils.Load16Swapped | src/endian_utils.hpp:23-25 | swapping a 2-byte value loaded in one byte order gives the value loaded in the other |
| EndianUtils.Load32Swapped | src/endian_utils.hpp:26-33 | the same for 4-byte values |
| EndianUtils.Load64Swapped | src/endian_utils.hpp:34-45 | the same for 8-byte values |
| EndianUtils.FromFileEndian16Decodes | src/endian_utils.hpp:49-56 | loading 2 bytes in host order and converting gives the load in the file's order, on either host |
| EndianUtils.FromFileEndian32Decodes | src/endian_utils.hpp:49-56 | the same for 4 bytes |
| EndianUtils.FromFileEndian64Decodes | src/endian_utils.hpp:49-56 | the same for 8 bytes |
| EndianUtils.FromFileEndian16Value | src/endian_utils.hpp:49-56 | loading 2 bytes in host order and converting gives the integer the bytes encode in the file's order |
| EndianUtils.FromFileEndian32Value | src/endian_utils.hpp:49-56 | the same for 4 bytes |
| EndianUtils.FromFileEndian64Value | src/endian_utils.hpp:49-56 | the same for 8 bytes |
| EndianUtils.Load16Value | src/endian_utils.hpp:49-56 | a 2-byte load is the integer value of the bytes in that byte order |
| EndianUtils.Load32Value | src/endian_utils.hpp:49-56 | the same for 4 bytes |
| EndianUtils.Load64Value | src/endian_utils.hpp:49-56 | the same for 8 bytes |
| EndianUtils.LeValueAppend | src/endian_utils.hpp:49-56 | the value of concatenated little-endian bytes is the low part plus 256^len times the high part |
| PilCommon.IsPilHashSegment | src/pil_common.hpp:37-44 | definition of the hash-segment test; its contract is `IsPilHashSegmentBits` |
| PilCommon.IsPilHashSegmentBits | src/pil_common.hpp:37-44 | a segment is a hash segment iff bits 24-26 of p_flags read 2; bits outside 24-26 never change the answer |
| PilCommon.ReadFileAt | src/pil_common.hpp:62-76 | succeeds iff the size is 0 or offset + size fits in the file; the result is exactly `size` bytes from `offset`; otherwise a short read |
| PilCommon.ReadStructAt | src/pil_common.hpp:78-91 | succeeds iff the record fits; the result is exactly sizeof(record) bytes from the offset; otherwise a short read |
| PilCommon.OverwriteBytes | src/pil_common.hpp:93-96 | after a write at `offset`, the written range holds the data, other bytes keep their value, and a gap past the old end is zero; writing nothing adds no gap |
| PilCommon.Overwrite | src/pil_common.hpp:93-96 | writing nothing leaves the length as it is; otherwise the file grows to the larger of its old length and offset + data length |
| PilCommon.WriteFileAt | src/pil_common.hpp:93-96 | the output's new contents are the old contents overwritten at `offset`; writing nothing changes nothing |
| PilCommon.AppendToFile | src/pil_common.hpp:98-101 | the output's new contents are the old contents followed by the data |
| PilCommon.DetectElfFormat | src/pil_common.hpp:110-133 | a short file is a short read; wrong magic is NotElf; EI_DATA other than 1 or 2 is UnknownDataEncoding, checked before the class; EI_CLASS other than 1 or 2 is UnsupportedClass; success iff all checks pass; EI_DATA 1 means little-endian; EI_CLASS 1 means 32-bit |
| PilCommon.DetectElfFormatReadsIdentOnly | src/pil_common.hpp:110-133 | two files with the same 16 identification bytes are identified alike |
| PilCommon.ReadElfHeader | src/pil_common.hpp:135-138 | succeeds iff the file holds a whole header; the header is the file's first sizeof(Ehdr) bytes |
| PilCommon.FieldsDecodeInFileOrder | src/pil_common.hpp:144-145 | a word, half-word or flags field read in host order and converted has the value of its bytes in the file's order, whatever the host |
| PilCommon.ReadPhoff | src/pil_common.hpp:144 | the decoded e_phoff does not depend on the host byte order |
| PilCommon.ReadPhnum | src/pil_common.hpp:145 | the decoded e_phnum does not depend on the host byte order |
| PilCommon.ProgramHeaderTable | src/pil_common.hpp:140-153 | the table reads iff phnum is 0 or all phnum records fit; it then has exactly phnum records; a failure is a short read |
| PilCommon.ProgramHeaderTableEntries | src/pil_common.hpp:147-150 | record i is the raw bytes at phoff + i * sizeof(Phdr) |
| PilCommon.ProgramHeaderTableFailsBeyond | src/pil_common.hpp:148-150 | once a record is short, reading more records fails too |
| PilCommon.ReadProgramHeaders | src/pil_common.hpp:140-153 | the loop returns the table of e_phnum records from e_phoff, or the short read |
| PilCommon.ReadElfImage | src/pil_common.hpp:135-153 | a header and table that read are the file's first sizeof(Ehdr) bytes and the e_phnum records from e_phoff |
| PilCommon.GetPhdrInfo | src/pil_common.hpp:162-169 | p_offset, p_filesz and p_flags decoded in the file's byte order, the same on every host |
| PilCommon.InfosAt | src/pil_common.hpp:162-169 | entry i of the decoded table is the decoded program header i |
| PilCommon.HashTotalMonotone | src/pil-squasher.cpp:19-22 | the hash bytes of a prefix of the table never exceed those of a longer prefix |
| PilCommon.WriteElfHeaderAndPhdrs | src/pil_common.hpp:173-186 | writes the header at 0, then |phdrs| / phdr_size entries, entry i at phoff + i * phdr_size |
| PilCommon.WriteElfHeaderAndPhdrsKeepsHeader | src/pil_common.hpp:179-185 | a header that ends before the table survives the entry writes verbatim |
| PilCommon.WriteElfHeaderAndPhdrsPlacesEntry | src/pil_common.hpp:181-185 | byte j of entry i lands at phoff + i * phdr_size + j |
| PilCommon.WriteElfHeaderAndPhdrsOfTable | src/pil_common.hpp:173-186 | given the table as one buffer, the helper writes what writing the entries one by one writes |
| PilCommon.ChunksOfFlatten | src/pil_common.hpp:181-184 | cutting a buffer of equal-size entries into phdr_size pieces gives the entries back |
| PilCommon.FlattenSlice | src/pil_common.hpp:183-184 | entry i of the buffer is bytes [i * size, i * size + size) |
| PilCommon.WritePhdr | src/pil_common.hpp:181-184 | one turn of the table loop: entry i lands at phoff + i * phdr_size on top of the entries before it |
| PilCommon.HeaderRegion | src/pil-splitter.cpp:35-47 | definition of the header region both tools write first; its contracts are `HeaderRegionLength`, `HeaderRegionFromSource` and `HeaderRegionZeros` |
| PilCommon.WriteHeaderAndTable | src/pil-splitter.cpp:35-47 | the output's new contents are the header written at 0, then program header i at phoff + i * sizeof(Phdr), in order; src/pil-squasher.cpp lines 44-55 run the same writes into the image |
| PilCommon.PlaceEntriesSlot | src/pil-splitter.cpp:42-47 | after the table loop, byte j of program header i sits at phoff + i * size + j, unless a later entry overwrote it |
| PilCommon.PlaceEntriesBefore | src/pil-splitter.cpp:42-47 | bytes before phoff are untouched by the table loop |
| PilCommon.HeaderRegionFromSource | src/pil-splitter.cpp:31-47 | the header and table written from a file agree with it on the header and on every program header; every other byte of them is zero |
| PilCommon.HeaderRegionZeros | src/pil-splitter.cpp:35-47 | a byte of the written region past the header and outside every program header slot is zero |
| PilCommon.PlaceEntriesOutsideSlots | src/pil-splitter.cpp:42-47 | a byte outside every entry's slot keeps its old value after the table loop, or is a zero of the gap |
| PilCommon.HeaderRegionLength | src/pil-splitter.cpp:35-47 | the written header region ends where the header or the table ends, whichever is later |
| PilCommon.ReadElfImageFromAgreeing | src/pil_common.hpp:135-153 | a file that agrees with another on the header and the table reads as the same header and table |
| PilCommon.FileName | src/pil-splitter.cpp:68 | the file name is the last path component: a suffix of the path with no '/', preceded by a '/' unless it is the whole path |
| PilCommon.HasMdtExtension | src/pil-splitter.cpp:68-70 | definition of the .mdt test: the last path component is longer than ".mdt" and ends with it; its contract is `MdtExtensionIsSuffix` |
| PilCommon.MdtExtensionIsSuffix | src/pil-splitter.cpp:68 | a path with the .mdt extension ends in ".mdt" |
| PilSplitter.WriteSegmentFile | src/pil-splitter.cpp:13-25 | the .bNN for index NN holds exactly the data; other files are unchanged |
| PilSplitter.SplitElf | src/pil-splitter.cpp:27-65 | definition of the class-specific split; its contracts are `SplitElfOk`, `SplitMdtHeader`, `SplitSegmentFiles` and `SplitSucceedsExactly` |
| PilSplitter.SplitOutcome | src/pil-splitter.cpp:67-91 | definition of `split`'s outcome; its contract is `SplitSucceedsExactly` |
| PilSplitter.HashStream | src/pil-splitter.cpp:60-63 | definition of the bytes appended to the .mdt; its contracts are `HashStreamLength`, `HashStreamSegment` and `HashStreamLayout` |
| PilSplitter.SegmentFiles | src/pil-splitter.cpp:53-58 | definition of the .bNN files; its contracts are `SegmentFilesContents` and `SegmentFilesAt` |
| PilSplitter.SplitImpl | src/pil-splitter.cpp:27-65 | on success the .mdt and the segment files are those of `SplitElf`; on failure `SplitElf` fails with the same error |
| PilSplitter.SplitSegments | src/pil-splitter.cpp:50-64 | on success every segment was readable, the .mdt grew by the hash stream, and the files are those of all non-empty segments; otherwise some segment is unreadable and the error is a short read |
| PilSplitter.SplitNext | src/pil-splitter.cpp:50-64 | one more turn extends the hash stream and the segment files by segment `index`, or fails with a short read because a segment is unreadable |
| PilSplitter.SplitSegment | src/pil-splitter.cpp:51-63 | succeeds iff the segment is empty or lies inside the image; it appends the segment to the .mdt iff it is a non-empty hash segment; it writes a .bNN iff the segment is non-empty, hash or not; a failure changes nothing |
| PilSplitter.Split | src/pil-splitter.cpp:67-91 | the outcome is `SplitOutcome`: path check, then identification, then the class-specific split |
| PilSplitter.SegmentStep | src/pil-splitter.cpp:53-63 | handling segment i appends its bytes to the hash stream iff it is a non-empty hash segment, and adds .bNN iff it is non-empty |
| PilSplitter.TruncatedSegment | src/pil-splitter.cpp:55 | a non-empty segment past the end of the image makes the segments unreadable |
| PilSplitter.HashStreamLength | src/pil-splitter.cpp:60-63 | the bytes appended to the .mdt are as many as all hash segments together |
| PilSplitter.HashStreamSegment | src/pil-splitter.cpp:61-63 | non-empty hash segment j sits, whole, in the hash stream after the hash segments before it |
| PilSplitter.HashStreamLayout | src/pil-splitter.cpp:41-63 | the .mdt's tail is the hash segments, each at the sum of the hash sizes before it |
| PilSplitter.SegmentFilesContents | src/pil-splitter.cpp:53-58 | there is a .bNN exactly for each non-empty segment NN, holding that segment's bytes of the image; an empty segment gets none |
| PilSplitter.SegmentFilesAt | src/pil-splitter.cpp:55-58 | segment file j holds bytes [p_offset, p_offset + p_filesz) of the image |
| PilSplitter.SplitSegmentFiles | src/pil-splitter.cpp:50-58 | a successful split writes a .bNN keyed by program header index for every non-empty segment, hash segments included, with that segment's bytes |
| PilSplitter.SplitFailsOnTruncatedSegment | src/pil-splitter.cpp:55 | a non-empty segment running past the end of the image makes the split fail with a short read |
| PilSplitter.SplitSucceedsExactly | src/pil-splitter.cpp:67-91 | a non-.mdt path fails first with NotMdtFile; then the identification error; otherwise the split succeeds iff the header, table and every non-empty segment read, and can only fail by a short read |
| PilSplitter.SplitMdtHeader | src/pil-splitter.cpp:31-47 | the .mdt holds the image's header and each program header at their own offsets, and is as long as the header region plus all hash segments |
| PilSplitter.SplitElfOk | src/pil-splitter.cpp:27-65 | a successful split read every segment, and its .mdt is the header region followed by the hash stream |
| PilSplitter.HashSegmentAfterRegion | src/pil-splitter.cpp:41-63 | in such a .mdt, non-empty hash segment j starts at the end of the header region plus the hash bytes before it, holding that segment's bytes of the image |
| PilSquasher.FetchSegment | src/pil-squasher.cpp:14-35 | a hash segment is the filesz bytes of the .mdt at the cursor, which moves past them, and fails iff they run past the end; any other segment is the first filesz bytes of its .bNN, with the cursor unchanged; a missing .bNN is MissingSegmentFile; a short file is a short read |
| PilSquasher.ReadSegmentData | src/pil-squasher.cpp:14-35 | returns the data and the updated hash cursor of `FetchSegment`, or its error |
| PilSquasher.SegmentSquashed | src/pil-squasher.cpp:61-68 | definition of one turn of the loop; its contracts are `SegmentSquashedOutcome`, `SegmentSquashedKeeps`, `SegmentSquashedPlaces` and `SegmentSquashedFails` |
| PilSquasher.SquashElf | src/pil-squasher.cpp:37-70 | definition of the class-specific squash; its contracts are `SquashSucceedsExactly`, `SquashKeepsHeader` and the round trip |
| PilSquasher.SquashOutcome | src/pil-squasher.cpp:72-96 | definition of `squash`'s outcome; its contract is `SquashSucceedsExactly` |
| PilSquasher.SquashImpl | src/pil-squasher.cpp:37-70 | on success the image's contents are those of `SquashElf`; on failure `SquashElf` fails with the same error |
| PilSquasher.SquashSegments | src/pil-squasher.cpp:60-69 | the loop's outcome and image are those of `SegmentsSquashed` from the starting cursor |
| PilSquasher.SquashSegment | src/pil-squasher.cpp:61-68 | one turn writes what `SegmentSquashed` writes and returns its new cursor, or its error |
| PilSquasher.Squash | src/pil-squasher.cpp:72-96 | the outcome is `SquashOutcome`: path check, then identification, then the class-specific squash |
| PilSquasher.SquashNextTurn | src/pil-squasher.cpp:60-69 | turn n-1 continues from where the first n-1 turns left off |
| PilSquasher.SquashFailsBeyond | src/pil-squasher.cpp:60-69 | once a turn fails, the loop's outcome is that failure |
| PilSquasher.SquashCursor | src/pil-squasher.cpp:58-66 | after n turns the hash cursor is its start plus the p_filesz of the hash segments among them |
| PilSquasher.SquashCursorNeverDecreases | src/pil-squasher.cpp:19-22 | the hash cursor never moves back |
| PilSquasher.SegmentSquashedOutcome | src/pil-squasher.cpp:63-68 | a turn succeeds iff its segment is empty or readable at the cursor; a failure names the missing file or the short read |
| PilSquasher.SquashSucceedsWhenAvailable | src/pil-squasher.cpp:60-69 | the loop succeeds iff every segment is readable at the cursor past the hash segments before it |
| PilSquasher.SquashFirstFailure | src/pil-squasher.cpp:24-33 | the first unreadable segment decides the error: MissingSegmentFile for a missing .bNN, else ShortRead |
| PilSquasher.SquashFailsOnMissingFile | src/pil-squasher.cpp:27-31 | a non-empty non-hash segment without a .bNN makes the squash fail, with MissingSegmentFile if it is the first failure |
| PilSquasher.SquashReadsOnlyNeededFiles | src/pil-squasher.cpp:19-33 | empty and hash segments never look at their .bNN: two file sets that agree on the needed files give the same outcome |
| PilSquasher.SquashKeepsUnwritten | src/pil-squasher.cpp:60-69 | a byte no segment covers keeps the value it had before the loop |
| PilSquasher.SquashGapIsZero | src/pil-squasher.cpp:60-69 | a byte no segment covers, past the end of the image the loop started from, is zero |
| PilSquasher.SquashUnwritten | src/pil-squasher.cpp:60-69 | every byte no segment covers is the starting image's byte, or zero past its end |
| PilSquasher.SquashPlacesSegment | src/pil-squasher.cpp:63-68 | byte k of non-empty segment j ends up at its place in the image, unless a later segment overwrites it |
| PilSquasher.SegmentSquashedKeeps | src/pil-squasher.cpp:68 | a turn leaves the bytes outside its segment alone |
| PilSquasher.SegmentSquashedGap | src/pil-squasher.cpp:68 | bytes a turn adds past the old end, outside its segment, are zero |
| PilSquasher.SegmentSquashedFails | src/pil-squasher.cpp:63-68 | a turn whose segment is not readable fails with MissingSegmentFile for a missing .bNN and ShortRead otherwise |
| PilSquasher.SegmentSquashedPlaces | src/pil-squasher.cpp:68 | a turn writes its segment's data at p_offset |
| PilSquasher.SquashSucceedsExactly | src/pil-squasher.cpp:72-96 | a non-.mdt path fails first with NotMdtFile; then the identification error; otherwise the squash is the class-specific one, succeeding iff the header and table read and every segment is readable |
| PilSquasher.SquashKeepsHeader | src/pil-squasher.cpp:41-55 | the image holds the .mdt's header and program headers at their own offsets, wherever no segment is written over them |
| RoundTrip.SquashAfterSplit | src/pil-squasher.cpp:57-68 | when split succeeds and phdr 0's p_filesz reaches the end of the header region, squash on the same path succeeds; its image is consistent with the original, agrees with it on every covered byte, is zero on every other byte, and equals it when all bytes are covered |
| RoundTrip.SquashSplitElf | src/pil-splitter.cpp:50-63 | the same for one ELF class and byte order; also the .mdt reads as the image's header and table with at least one program header |
| RoundTrip.SquashSplitElfZeros | src/pil-squasher.cpp:44-68 | for one ELF class and byte order, every byte of the rebuilt image outside the original's header, program headers and non-empty segments is zero |
| RoundTrip.LayoutZeros | src/pil-squasher.cpp:44-68 | an image whose uncovered bytes come from a header region that is zero outside the header and the table is zero outside the layout |
| RoundTrip.SquashOfSplitSegments | src/pil-squasher.cpp:60-69 | over the split's output, the segment loop succeeds, its cursor is the region end plus the hash bytes seen, and its image agrees with the original on every segment handled |
| RoundTrip.SegmentSquashedOfSplit | src/pil-squasher.cpp:63-68 | one turn over the split's output reads segment i's own bytes of the image and writes them back at p_offset |
| RoundTrip.FetchCopiedHashSegment | src/pil-squasher.cpp:19-22 | a hash read at a cursor where the .mdt holds a copy of image bytes returns that copy |
| RoundTrip.FetchFileSegmentOfSplit | src/pil-squasher.cpp:23-33 | a non-hash read from the split's .bNN returns the segment's bytes of the image |
| RoundTrip.SplitMdtReadsAsImage | src/pil-squasher.cpp:41-42 | the split's .mdt reads as the image's own header and table, with at least one program header |
| RoundTrip.LayoutAgrees | src/pil-squasher.cpp:44-68 | a rebuilt image that agrees on the header region and on every segment agrees on every byte the header, table and segments cover |
| RoundTrip.AgreesEverywhere | src/pil-squasher.cpp:44-68 | an image consistent with the original that agrees with it on every byte is the original |
| RoundTrip.OverwriteWithOwnBytes | src/pil-squasher.cpp:68 | writing image bytes at their own offset keeps the output consistent, keeps all agreement, and makes the written range agree |

## Left out

- The two `main` functions (argument count, usage text, exit codes, mapping exceptions to messages): command-line plumbing.
- `throw_system_error`, `errno` and the `std::system_error` messages: every failure is one `ErrorKind` value.
- Opening files: a failure to open or create a file other than a missing `.bNN` is not modelled, since it comes from the operating system.
  - The `.mdt` and the image are given to the tools as byte sequences.
  - The output file is created empty.
- `fs::path` semantics beyond the `.mdt` extension rule.
  - The rule is a suffix test on the last path component that is longer than ".mdt" (`HasMdtExtension`).
  - `.bNN` naming (`replace_extension` with `{:02d}`) is the map key NN, the program header index.
  - `fmt`/`std::format` output is not modelled.
- Stream mechanics (`seekg`, `seekp`, `gcount`, exception masks): a read either returns the requested bytes or fails with `ShortRead`.
- `Overwrite`: writing past the end of a file fills the gap with zeros. This is an assumption about the file system, not something the program does.
- Partially written output after a failure, and the truncation of the output before the input is identified. The model returns only an error and no file.
- `size_t` wrap-around: offsets and sizes are unbounded naturals, so `phoff + i * sizeof(Phdr)` and `p_offset + p_filesz` never overflow here.
- `bit_cast`/`memcpy` of whole structs: records are raw byte sequences, and only the fields the tools read (e_phoff, e_phnum, p_offset, p_filesz, p_flags) are decoded, at the gABI offsets.
- `is_little_endian()`: the host's byte order is the parameter `hostLittleEndian` of the methods. The lemmas show the decoded fields do not depend on it.
- PilSquasher.SquashElf, PilSquasher.SquashOutcome, PilSquasher.SquashImpl, PilSquasher.Squash: these require e_phnum ≥ 1 (`PhnumPositive`, `HasProgramHeaders`). With no program headers, `squash_impl` reads `phdrs[0]` out of bounds, which is undefined behaviour. `SquashOutcome` and `Squash` require it only of a path that passes the .mdt check, because any other path fails before the .mdt is read.
- RoundTrip.SquashAfterSplit: requires `p_filesz` of program header 0 to equal the end of the header region (`CursorStartsAfterHeader`), i.e. the larger of sizeof(Ehdr) and phoff + phnum * sizeof(Phdr).
  - The split appends hash segments there, and the squash starts its cursor at that `p_filesz`.
  - Nothing in the program checks that the two agree.
  - The theorem promises equality only on covered bytes. Bytes that neither the header, the table nor a segment covers come back as zeros (`SquashSplitElfZeros`) or are cut off, since the rebuilt image is never longer than the original (`Consistent`).
