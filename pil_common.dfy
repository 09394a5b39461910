/**
 Helpers shared by the splitter and the squasher: the PIL hash-segment
 classifier, reads from and writes to files, ELF identification, and the
 reading of the ELF header and program header table of either ELF class.

 An input file is its contents, a `seq<byte>`. An output file is an
 `OutFile` object whose contents the write operations update in place.
 */
module PilCommon {
  import opened EndianUtils

  type byte = bv8

  /** The ways an operation can fail. Every failure aborts the operation. */
  datatype ErrorKind =
    | NotElf               // the first four bytes are not the ELF magic
    | UnknownDataEncoding  // EI_DATA is neither little- nor big-endian
    | UnsupportedClass     // EI_CLASS is neither 32-bit nor 64-bit
    | ShortRead            // a read found fewer bytes than it asked for
    | NotMdtFile           // the metadata path does not have the .mdt extension
    | MissingSegmentFile   // a .bNN file the squasher needs does not exist

  datatype Result<T> = Ok(value: T) | Err(error: ErrorKind)

  function Max(a: nat, b: nat): nat
  {
    if a < b then b else a
  }

  /* ---------------------------------------------------------------------- */
  /* PIL segment type: bits 24-26 of p_flags (a Qualcomm extension)         */
  /* ---------------------------------------------------------------------- */

  const SegmentTypeShift: bv32 := 24
  const SegmentTypeMask: bv32 := 7
  const SegmentTypeHash: bv32 := 2

  function IsPilHashSegment(flags: bv32): bool
  {
    ((flags >> SegmentTypeShift) & SegmentTypeMask) == SegmentTypeHash
  }

  /** A segment is a hash segment exactly when bits 24-26 of its flags read
      binary 010; no other bit of the flags matters. */
  lemma IsPilHashSegmentBits(flags: bv32, other: bv32)
    ensures IsPilHashSegment(flags) <==> (flags & 0x0700_0000) == 0x0200_0000
    ensures (flags & 0x0700_0000) == (other & 0x0700_0000) ==> IsPilHashSegment(flags) == IsPilHashSegment(other)
  {
  }

  /* ---------------------------------------------------------------------- */
  /* Reading files                                                          */
  /* ---------------------------------------------------------------------- */

  /** Reads `size` bytes at `offset`; a read that would run past the end of
      the file fails. Reading nothing succeeds wherever the offset lies. */
  function ReadFileAt(file: seq<byte>, offset: nat, size: nat): (r: Result<seq<byte>>)
    ensures r.Ok? <==> size == 0 || offset + size <= |file|
    ensures r.Ok? ==> |r.value| == size && forall k :: 0 <= k < size ==> r.value[k] == file[offset + k]
    ensures r.Ok? && size > 0 ==> r.value == file[offset..offset + size]
    ensures r.Err? ==> r.error == ShortRead
  {
    if size == 0 then Ok([])
    else if offset + size <= |file| then Ok(file[offset..offset + size])
    else Err(ShortRead)
  }

  datatype ElfClass = Class32 | Class64

  /** The two fixed-size records the program reads. */
  datatype Record = ElfHeader | ProgramHeader

  /** sizeof(Elf32_Ehdr), sizeof(Elf32_Phdr), sizeof(Elf64_Ehdr), sizeof(Elf64_Phdr). */
  function SizeOf(c: ElfClass, rec: Record): nat
  {
    match (c, rec)
    case (Class32, ElfHeader) => 52
    case (Class32, ProgramHeader) => 32
    case (Class64, ElfHeader) => 64
    case (Class64, ProgramHeader) => 56
  }

  /** Reads the raw bytes of one record at `offset`. */
  function ReadStructAt(file: seq<byte>, offset: nat, c: ElfClass, rec: Record): (r: Result<seq<byte>>)
    ensures r.Ok? <==> offset + SizeOf(c, rec) <= |file|
    ensures r.Ok? ==> r.value == file[offset..offset + SizeOf(c, rec)]
    ensures r.Err? ==> r.error == ShortRead
  {
    var raw := ReadFileAt(file, offset, SizeOf(c, rec));
    assert raw.Ok? ==> raw.value == file[offset..offset + SizeOf(c, rec)];
    raw
  }

  /* ---------------------------------------------------------------------- */
  /* Writing files                                                          */
  /* ---------------------------------------------------------------------- */

  function Zeros(n: nat): (z: seq<byte>)
    ensures |z| == n && forall k :: 0 <= k < n ==> z[k] == 0
  {
    seq(n, _ => 0)
  }

  /** The contents of `f` after writing `data` at `offset`. Writing past the
      end of a file fills the gap with zero bytes: this is what the file
      system does, and an assumption of this model. Writing nothing leaves
      the file as it is, even past its end. */
  function Overwrite(f: seq<byte>, offset: nat, data: seq<byte>): (g: seq<byte>)
    ensures |g| == if data == [] then |f| else Max(|f|, offset + |data|)
  {
    if data == [] then f
    else
      var padded := if offset <= |f| then f else f + Zeros(offset - |f|);
      padded[..offset] + data + (if offset + |data| < |padded| then padded[offset + |data|..] else [])
  }

  /** Byte by byte: the written bytes, else the old byte, else a zero of
      the gap. */
  lemma OverwriteBytes(f: seq<byte>, offset: nat, data: seq<byte>)
    ensures var g := Overwrite(f, offset, data);
      forall k :: 0 <= k < |g| ==>
        g[k] == if offset <= k < offset + |data| then data[k - offset] else if k < |f| then f[k] else 0
  {
  }

  /** The same, for one byte k. */
  lemma OverwriteByte(f: seq<byte>, offset: nat, data: seq<byte>, k: nat)
    requires k < |Overwrite(f, offset, data)|
    ensures Overwrite(f, offset, data)[k] ==
      if offset <= k < offset + |data| then data[k - offset] else if k < |f| then f[k] else 0
  {
    OverwriteBytes(f, offset, data);
  }

  /** An output file, opened (and truncated) for writing. */
  class OutFile {
    var contents: seq<byte>

    constructor ()
      ensures contents == []
    {
      contents := [];
    }
  }

  method WriteFileAt(out: OutFile, offset: nat, data: seq<byte>)
    modifies out
    ensures out.contents == Overwrite(old(out.contents), offset, data)
  {
    out.contents := Overwrite(out.contents, offset, data);
  }

  /** Seeks to the end of the file and writes there. */
  method AppendToFile(out: OutFile, data: seq<byte>)
    modifies out
    ensures out.contents == old(out.contents) + data
  {
    var end := |out.contents|;
    out.contents := Overwrite(out.contents, end, data);
    assert out.contents == old(out.contents) + data;
  }

  /* ---------------------------------------------------------------------- */
  /* ELF identification                                                     */
  /* ---------------------------------------------------------------------- */

  const ElfMagic: seq<byte> := [0x7F, 0x45, 0x4C, 0x46]  // 0x7F 'E' 'L' 'F'
  const IdentSize: nat := 16                              // EI_NIDENT
  const ClassIndex: nat := 4                              // EI_CLASS
  const DataIndex: nat := 5                               // EI_DATA
  const Class32Tag: byte := 1                             // ELFCLASS32
  const Class64Tag: byte := 2                             // ELFCLASS64
  const DataLsbTag: byte := 1                             // ELFDATA2LSB
  const DataMsbTag: byte := 2                             // ELFDATA2MSB

  datatype ElfFormat = ElfFormat(elfClass: ElfClass, isLittleEndian: bool)

  /** Validates the identification block: the magic first, then the data
      encoding, then the class. A file too short to hold the block fails as
      a short read. */
  function DetectElfFormat(file: seq<byte>): (r: Result<ElfFormat>)
    ensures |file| < IdentSize ==> r == Err(ShortRead)
    ensures |file| >= IdentSize && file[..4] != ElfMagic ==> r == Err(NotElf)
    ensures |file| >= IdentSize && file[..4] == ElfMagic && file[DataIndex] != 1 && file[DataIndex] != 2
            ==> r == Err(UnknownDataEncoding)
    ensures |file| >= IdentSize && file[..4] == ElfMagic && (file[DataIndex] == 1 || file[DataIndex] == 2)
            && file[ClassIndex] != 1 && file[ClassIndex] != 2
            ==> r == Err(UnsupportedClass)
    ensures r.Ok? <==> |file| >= IdentSize && file[..4] == ElfMagic
                       && (file[DataIndex] == 1 || file[DataIndex] == 2)
                       && (file[ClassIndex] == 1 || file[ClassIndex] == 2)
    ensures r.Ok? ==> (r.value.isLittleEndian <==> file[DataIndex] == 1)
                      && (r.value.elfClass == Class32 <==> file[ClassIndex] == 1)
  {
    if |file| < IdentSize then Err(ShortRead)
    else
      var ident := file[..IdentSize];
      if ident[..4] != ElfMagic then Err(NotElf)
      else if ident[DataIndex] != DataLsbTag && ident[DataIndex] != DataMsbTag then Err(UnknownDataEncoding)
      else
        var isLittleEndian := ident[DataIndex] == DataLsbTag;
        if ident[ClassIndex] != Class32Tag && ident[ClassIndex] != Class64Tag then Err(UnsupportedClass)
        else Ok(ElfFormat(if ident[ClassIndex] == Class32Tag then Class32 else Class64, isLittleEndian))
  }

  /** Detection looks at the identification block and nothing else. */
  lemma DetectElfFormatReadsIdentOnly(a: seq<byte>, b: seq<byte>)
    requires |a| >= IdentSize && |b| >= IdentSize
    requires forall k :: 0 <= k < IdentSize ==> a[k] == b[k]
    ensures DetectElfFormat(a) == DetectElfFormat(b)
  {
    assert a[..4] == b[..4];
  }

  /* ---------------------------------------------------------------------- */
  /* Header and program header fields (System V gABI layouts)               */
  /* ---------------------------------------------------------------------- */

  /** Width of an address or offset field: 4 bytes in ELFCLASS32, 8 in ELFCLASS64. */
  function WordSize(c: ElfClass): nat
  {
    match c
    case Class32 => 4
    case Class64 => 8
  }

  function PhoffAt(c: ElfClass): nat   { match c case Class32 => 28 case Class64 => 32 }  // e_phoff
  function PhnumAt(c: ElfClass): nat   { match c case Class32 => 44 case Class64 => 56 }  // e_phnum
  function OffsetAt(c: ElfClass): nat  { match c case Class32 => 4  case Class64 => 8 }   // p_offset
  function FileszAt(c: ElfClass): nat  { match c case Class32 => 16 case Class64 => 32 }  // p_filesz
  function FlagsAt(c: ElfClass): nat   { match c case Class32 => 24 case Class64 => 4 }   // p_flags

  /** A word field as the program reads it: the raw bytes loaded in host
      order, then converted from the file's order. */
  function ReadWord(raw: seq<byte>, at: nat, c: ElfClass, fileLittleEndian: bool, hostLittleEndian: bool): nat
    requires at + WordSize(c) <= |raw|
  {
    match c
    case Class32 => FromFileEndian32(Load32(raw[at..at + 4], hostLittleEndian), fileLittleEndian, hostLittleEndian) as nat
    case Class64 => FromFileEndian64(Load64(raw[at..at + 8], hostLittleEndian), fileLittleEndian, hostLittleEndian) as nat
  }

  function ReadHalf(raw: seq<byte>, at: nat, fileLittleEndian: bool, hostLittleEndian: bool): nat
    requires at + 2 <= |raw|
  {
    FromFileEndian16(Load16(raw[at..at + 2], hostLittleEndian), fileLittleEndian, hostLittleEndian) as nat
  }

  function ReadFlags(raw: seq<byte>, at: nat, fileLittleEndian: bool, hostLittleEndian: bool): bv32
    requires at + 4 <= |raw|
  {
    FromFileEndian32(Load32(raw[at..at + 4], hostLittleEndian), fileLittleEndian, hostLittleEndian)
  }

  /** The integer a word field holds: the value of its bytes in the file's
      byte order. */
  function WordValue(raw: seq<byte>, at: nat, c: ElfClass, fileLittleEndian: bool): nat
    requires at + WordSize(c) <= |raw|
  {
    ByteValue(raw[at..at + WordSize(c)], fileLittleEndian)
  }

  function HalfValue(raw: seq<byte>, at: nat, fileLittleEndian: bool): nat
    requires at + 2 <= |raw|
  {
    ByteValue(raw[at..at + 2], fileLittleEndian)
  }

  function FlagsValue(raw: seq<byte>, at: nat, fileLittleEndian: bool): bv32
    requires at + 4 <= |raw|
  {
    Load32(raw[at..at + 4], fileLittleEndian)
  }

  /** Fields read by the program do not depend on the host: each is the
      value its bytes encode in the file's byte order. */
  lemma FieldsDecodeInFileOrder(raw: seq<byte>, at: nat, c: ElfClass, fileLittleEndian: bool, hostLittleEndian: bool)
    requires at + WordSize(c) <= |raw|
    ensures ReadWord(raw, at, c, fileLittleEndian, hostLittleEndian) == WordValue(raw, at, c, fileLittleEndian)
    ensures at + 2 <= |raw| ==> ReadHalf(raw, at, fileLittleEndian, hostLittleEndian) == HalfValue(raw, at, fileLittleEndian)
    ensures at + 4 <= |raw| ==> ReadFlags(raw, at, fileLittleEndian, hostLittleEndian) == FlagsValue(raw, at, fileLittleEndian)
  {
    if at + 2 <= |raw| {
      FromFileEndian16Value(raw[at..at + 2], fileLittleEndian, hostLittleEndian);
    }
    if at + 4 <= |raw| {
      FromFileEndian32Value(raw[at..at + 4], fileLittleEndian, hostLittleEndian);
      FromFileEndian32Decodes(raw[at..at + 4], fileLittleEndian, hostLittleEndian);
    }
    if c == Class64 {
      FromFileEndian64Value(raw[at..at + 8], fileLittleEndian, hostLittleEndian);
    }
  }

  /** e_phoff and e_phnum of a header. */
  function Phoff(ehdr: seq<byte>, c: ElfClass, fileLittleEndian: bool): nat
    requires |ehdr| == SizeOf(c, ElfHeader)
  {
    WordValue(ehdr, PhoffAt(c), c, fileLittleEndian)
  }

  function Phnum(ehdr: seq<byte>, c: ElfClass, fileLittleEndian: bool): nat
    requires |ehdr| == SizeOf(c, ElfHeader)
  {
    HalfValue(ehdr, PhnumAt(c), fileLittleEndian)
  }

  /** from_file_endian(ehdr.e_phoff): the same on every host. */
  function ReadPhoff(ehdr: seq<byte>, c: ElfClass, fileLittleEndian: bool, hostLittleEndian: bool): (phoff: nat)
    requires |ehdr| == SizeOf(c, ElfHeader)
    ensures phoff == Phoff(ehdr, c, fileLittleEndian)
  {
    FieldsDecodeInFileOrder(ehdr, PhoffAt(c), c, fileLittleEndian, hostLittleEndian);
    ReadWord(ehdr, PhoffAt(c), c, fileLittleEndian, hostLittleEndian)
  }

  /** from_file_endian(ehdr.e_phnum): the same on every host. */
  function ReadPhnum(ehdr: seq<byte>, c: ElfClass, fileLittleEndian: bool, hostLittleEndian: bool): (phnum: nat)
    requires |ehdr| == SizeOf(c, ElfHeader)
    ensures phnum == Phnum(ehdr, c, fileLittleEndian)
  {
    FieldsDecodeInFileOrder(ehdr, PhnumAt(c), c, fileLittleEndian, hostLittleEndian);
    ReadHalf(ehdr, PhnumAt(c), fileLittleEndian, hostLittleEndian)
  }

  /** The three program header fields the program interprets. */
  datatype PhdrInfo = PhdrInfo(offset: nat, filesz: nat, flags: bv32)

  /** The values of p_offset, p_filesz and p_flags of a program header. */
  function PhdrFields(phdr: seq<byte>, c: ElfClass, fileLittleEndian: bool): PhdrInfo
    requires |phdr| == SizeOf(c, ProgramHeader)
  {
    PhdrInfo(
      WordValue(phdr, OffsetAt(c), c, fileLittleEndian),
      WordValue(phdr, FileszAt(c), c, fileLittleEndian),
      FlagsValue(phdr, FlagsAt(c), fileLittleEndian))
  }

  /** `infos` holds the decoded fields of each entry of `phdrs`. */
  predicate DecodedFrom(infos: seq<PhdrInfo>, phdrs: seq<seq<byte>>, c: ElfClass, fileLittleEndian: bool)
  {
    && |infos| == |phdrs|
    && (forall i :: 0 <= i < |phdrs| ==> |phdrs[i]| == SizeOf(c, ProgramHeader))
    && forall i {:trigger PhdrFields(phdrs[i], c, fileLittleEndian)} :: 0 <= i < |phdrs| ==>
         |phdrs[i]| == SizeOf(c, ProgramHeader) && infos[i] == PhdrFields(phdrs[i], c, fileLittleEndian)
  }

  /** get_phdr_info: the three fields read in host order and converted from
      the file's order, which gives their values whatever the host. */
  function GetPhdrInfo(phdr: seq<byte>, c: ElfClass, fileLittleEndian: bool, hostLittleEndian: bool): (info: PhdrInfo)
    requires |phdr| == SizeOf(c, ProgramHeader)
    ensures info == PhdrFields(phdr, c, fileLittleEndian)
  {
    FieldsDecodeInFileOrder(phdr, OffsetAt(c), c, fileLittleEndian, hostLittleEndian);
    FieldsDecodeInFileOrder(phdr, FileszAt(c), c, fileLittleEndian, hostLittleEndian);
    FieldsDecodeInFileOrder(phdr, FlagsAt(c), Class32, fileLittleEndian, hostLittleEndian);
    PhdrInfo(
      ReadWord(phdr, OffsetAt(c), c, fileLittleEndian, hostLittleEndian),
      ReadWord(phdr, FileszAt(c), c, fileLittleEndian, hostLittleEndian),
      ReadFlags(phdr, FlagsAt(c), fileLittleEndian, hostLittleEndian))
  }

  /* ---------------------------------------------------------------------- */
  /* Reading the header and the program header table                        */
  /* ---------------------------------------------------------------------- */

  function ReadElfHeader(file: seq<byte>, c: ElfClass): (r: Result<seq<byte>>)
    ensures r.Ok? <==> SizeOf(c, ElfHeader) <= |file|
    ensures r.Ok? ==> r.value == file[..SizeOf(c, ElfHeader)]
  {
    ReadStructAt(file, 0, c, ElfHeader)
  }

  lemma MulMonotone(a: nat, b: nat, s: nat)
    requires a <= b
    ensures a * s <= b * s
  {
    assert b * s == a * s + (b - a) * s;
  }

  /** The first `phnum` records of the table that starts at `phoff`, each
      record's raw bytes; the table fails to read as soon as one record is
      short. */
  function ProgramHeaderTable(file: seq<byte>, c: ElfClass, phoff: nat, phnum: nat): (r: Result<seq<seq<byte>>>)
    ensures r.Ok? <==> phnum == 0 || phoff + phnum * SizeOf(c, ProgramHeader) <= |file|
    ensures r.Err? ==> r.error == ShortRead
    ensures r.Ok? ==> |r.value| == phnum
    decreases phnum
  {
    if phnum == 0 then Ok([])
    else
      var size := SizeOf(c, ProgramHeader);
      var prefix := ProgramHeaderTable(file, c, phoff, phnum - 1);
      assert (phnum - 1) * size + size == phnum * size;
      match prefix
      case Err(e) =>
        MulMonotone(phnum - 1, phnum, size);
        Err(e)
      case Ok(entries) =>
        match ReadStructAt(file, phoff + (phnum - 1) * size, c, ProgramHeader)
        case Err(e) => Err(e)
        case Ok(entry) => Ok(entries + [entry])
  }

  /** Record i of a table that reads is the raw bytes at
      `phoff + i * sizeof(Phdr)`. */
  lemma {:induction false} ProgramHeaderTableEntries(file: seq<byte>, c: ElfClass, phoff: nat, phnum: nat)
    requires ProgramHeaderTable(file, c, phoff, phnum).Ok?
    ensures var entries := ProgramHeaderTable(file, c, phoff, phnum).value;
      forall i :: 0 <= i < phnum ==>
        && phoff + i * SizeOf(c, ProgramHeader) + SizeOf(c, ProgramHeader) <= |file|
        && |entries[i]| == SizeOf(c, ProgramHeader)
        && entries[i] == file[phoff + i * SizeOf(c, ProgramHeader)..phoff + i * SizeOf(c, ProgramHeader) + SizeOf(c, ProgramHeader)]
    decreases phnum
  {
    if phnum > 0 {
      var size := SizeOf(c, ProgramHeader);
      var entries := ProgramHeaderTable(file, c, phoff, phnum).value;
      var prefix := ProgramHeaderTable(file, c, phoff, phnum - 1);
      assert prefix.Ok?;
      ProgramHeaderTableEntries(file, c, phoff, phnum - 1);
      assert entries == prefix.value + [file[phoff + (phnum - 1) * size..phoff + (phnum - 1) * size + size]];
      forall i | 0 <= i < phnum
        ensures phoff + i * size + size <= |file|
      {
        MulMonotone(i + 1, phnum, size);
        SlotStep(phoff, i, size);
      }
    }
  }

  /** A table that does not fit does not fit with more records either. */
  lemma ProgramHeaderTableFailsBeyond(file: seq<byte>, c: ElfClass, phoff: nat, m: nat, n: nat)
    requires m <= n && ProgramHeaderTable(file, c, phoff, m).Err?
    ensures ProgramHeaderTable(file, c, phoff, n) == Err(ShortRead)
  {
    MulMonotone(m, n, SizeOf(c, ProgramHeader));
  }

  /** Reads `e_phnum` records starting at `e_phoff`, record i at
      `e_phoff + i * sizeof(Phdr)`. */
  method ReadProgramHeaders(file: seq<byte>, ehdr: seq<byte>, c: ElfClass, fileLittleEndian: bool, hostLittleEndian: bool)
    returns (r: Result<seq<seq<byte>>>)
    requires |ehdr| == SizeOf(c, ElfHeader)
    ensures r == ProgramHeaderTable(file, c, Phoff(ehdr, c, fileLittleEndian), Phnum(ehdr, c, fileLittleEndian))
  {
    var phoff := ReadPhoff(ehdr, c, fileLittleEndian, hostLittleEndian);
    var phnum := ReadPhnum(ehdr, c, fileLittleEndian, hostLittleEndian);
    var phdrs: seq<seq<byte>> := [];
    var i: nat := 0;
    while i < phnum
      invariant i <= phnum
      invariant ProgramHeaderTable(file, c, phoff, i) == Ok(phdrs)
    {
      MulMonotone(0, i, SizeOf(c, ProgramHeader));
      var entry := ReadStructAt(file, phoff + i * SizeOf(c, ProgramHeader), c, ProgramHeader);
      if entry.Err? {
        assert ProgramHeaderTable(file, c, phoff, i + 1).Err?;
        ProgramHeaderTableFailsBeyond(file, c, phoff, i + 1, phnum);
        return Err(entry.error);
      }
      phdrs := phdrs + [entry.value];
      i := i + 1;
    }
    return Ok(phdrs);
  }

  /** The header and program header table of one file, as raw bytes. */
  datatype ElfImage = ElfImage(ehdr: seq<byte>, phoff: nat, phdrs: seq<seq<byte>>)

  predicate WellFormedImage(img: ElfImage, c: ElfClass)
  {
    && |img.ehdr| == SizeOf(c, ElfHeader)
    && forall i :: 0 <= i < |img.phdrs| ==> |img.phdrs[i]| == SizeOf(c, ProgramHeader)
  }

  /** read_elf_header followed by read_program_headers. */
  function ReadElfImage(file: seq<byte>, c: ElfClass, fileLittleEndian: bool): (r: Result<ElfImage>)
    ensures r.Ok? ==> WellFormedImage(r.value, c)
    ensures r.Ok? ==> SizeOf(c, ElfHeader) <= |file| && r.value.ehdr == file[..SizeOf(c, ElfHeader)]
    ensures r.Ok? ==> r.value.phoff == Phoff(r.value.ehdr, c, fileLittleEndian)
    ensures r.Ok? ==> Ok(r.value.phdrs) == ProgramHeaderTable(file, c, r.value.phoff,
                                                              Phnum(r.value.ehdr, c, fileLittleEndian))
  {
    match ReadElfHeader(file, c)
    case Err(e) => Err(e)
    case Ok(ehdr) =>
      var phoff := Phoff(ehdr, c, fileLittleEndian);
      var phnum := Phnum(ehdr, c, fileLittleEndian);
      match ProgramHeaderTable(file, c, phoff, phnum)
      case Err(e) => Err(e)
      case Ok(phdrs) =>
        ProgramHeaderTableEntries(file, c, phoff, phnum);
        Ok(ElfImage(ehdr, phoff, phdrs))
  }

  /** The decoded fields of every program header, in table order. */
  function Infos(img: ElfImage, c: ElfClass, fileLittleEndian: bool): (infos: seq<PhdrInfo>)
    requires WellFormedImage(img, c)
    ensures |infos| == |img.phdrs|
  {
    DecodeEntries(img.phdrs, c, fileLittleEndian, |img.phdrs|)
  }

  /** Entry i of the decoded table is program header i, decoded. */
  lemma {:induction false} DecodeEntriesAt(phdrs: seq<seq<byte>>, c: ElfClass, fileLittleEndian: bool, n: nat, i: nat)
    requires n <= |phdrs| && forall i :: 0 <= i < |phdrs| ==> |phdrs[i]| == SizeOf(c, ProgramHeader)
    requires i < n
    ensures DecodeEntries(phdrs, c, fileLittleEndian, n)[i] == PhdrFields(phdrs[i], c, fileLittleEndian)
    decreases n
  {
    if i < n - 1 {
      DecodeEntriesAt(phdrs, c, fileLittleEndian, n - 1, i);
    }
  }

  /** Entry i of the decoded table of an image is its program header i,
      decoded. */
  lemma InfosAt(img: ElfImage, c: ElfClass, fileLittleEndian: bool)
    requires WellFormedImage(img, c)
    ensures DecodedFrom(Infos(img, c, fileLittleEndian), img.phdrs, c, fileLittleEndian)
  {
    forall i | 0 <= i < |img.phdrs|
      ensures Infos(img, c, fileLittleEndian)[i] == PhdrFields(img.phdrs[i], c, fileLittleEndian)
    {
      DecodeEntriesAt(img.phdrs, c, fileLittleEndian, |img.phdrs|, i);
    }
  }

  /** The decoded fields of the first `n` program headers. */
  function DecodeEntries(phdrs: seq<seq<byte>>, c: ElfClass, fileLittleEndian: bool, n: nat): (infos: seq<PhdrInfo>)
    requires n <= |phdrs| && forall i :: 0 <= i < |phdrs| ==> |phdrs[i]| == SizeOf(c, ProgramHeader)
    ensures |infos| == n
  {
    if n == 0 then [] else DecodeEntries(phdrs, c, fileLittleEndian, n - 1) + [PhdrFields(phdrs[n - 1], c, fileLittleEndian)]
  }

  /** The number of bytes of the hash segments among the first `n`. */
  function HashTotal(infos: seq<PhdrInfo>, n: nat): nat
    requires n <= |infos|
  {
    if n == 0 then 0
    else HashTotal(infos, n - 1) + (if IsPilHashSegment(infos[n - 1].flags) then infos[n - 1].filesz else 0)
  }

  /** The hash bytes of the first `m` segments never exceed those of the
      first `n`, for m <= n. */
  lemma {:induction false} HashTotalMonotone(infos: seq<PhdrInfo>, m: nat, n: nat)
    requires m <= n <= |infos|
    ensures HashTotal(infos, m) <= HashTotal(infos, n)
    decreases n
  {
    if m < n {
      HashTotalMonotone(infos, m, n - 1);
    }
  }

  /* ---------------------------------------------------------------------- */
  /* Writing the header and the program header table                        */
  /* ---------------------------------------------------------------------- */

  /** `f` after writing entries[0], ..., entries[n - 1] in this order,
      entry i at `offset + i * size`. */
  function PlaceEntries(f: seq<byte>, offset: nat, entries: seq<seq<byte>>, size: nat, n: nat): seq<byte>
    requires n <= |entries|
  {
    if n == 0 then f
    else Overwrite(PlaceEntries(f, offset, entries, size, n - 1), offset + (n - 1) * size, entries[n - 1])
  }

  /** Writing one more entry is one more overwrite. */
  lemma PlaceEntriesNext(f: seq<byte>, offset: nat, entries: seq<seq<byte>>, size: nat, m: nat, n: nat, before: seq<byte>, at: nat, entry: seq<byte>)
    requires n == m + 1 && n <= |entries| && entry == entries[m]
    requires before == PlaceEntries(f, offset, entries, size, m) && at == offset + m * size
    ensures Overwrite(before, at, entry) == PlaceEntries(f, offset, entries, size, n)
  {
    assert n - 1 == m;
  }

  /** Slot i of a table of `size`-byte entries ends where slot i + 1 begins. */
  lemma SlotStep(offset: nat, i: nat, size: nat)
    ensures offset <= offset + i * size
    ensures offset + i * size + size == offset + (i + 1) * size
  {
    MulMonotone(0, i, size);
  }

  lemma OverwriteBefore(f: seq<byte>, offset: nat, data: seq<byte>, k: nat)
    requires k < offset && k < |f|
    ensures var g := Overwrite(f, offset, data);
      k < |g| && g[k] == f[k]
  {
  }

  lemma OverwriteAt(f: seq<byte>, offset: nat, data: seq<byte>, at: nat, j: nat)
    requires j < |data| && at == offset + j
    ensures var g := Overwrite(f, offset, data);
      at < |g| && g[at] == data[j]
  {
  }

  /** Bytes before the table keep their value. */
  lemma {:induction false} PlaceEntriesBefore(f: seq<byte>, offset: nat, entries: seq<seq<byte>>, size: nat, n: nat, k: nat)
    requires n <= |entries| && k < offset && k < |f|
    ensures var g := PlaceEntries(f, offset, entries, size, n);
      k < |g| && g[k] == f[k]
    decreases n
  {
    if n > 0 {
      PlaceEntriesBefore(f, offset, entries, size, n - 1, k);
      SlotStep(offset, n - 1, size);
      OverwriteBefore(PlaceEntries(f, offset, entries, size, n - 1), offset + (n - 1) * size, entries[n - 1], k);
    }
  }

  /** Byte j of entry i sits at `offset + i * size + j`: later entries
      are written past it. */
  lemma {:induction false} PlaceEntriesSlot(f: seq<byte>, offset: nat, entries: seq<seq<byte>>, size: nat, n: nat, i: nat, j: nat, at: nat)
    requires n <= |entries| && forall i :: 0 <= i < |entries| ==> |entries[i]| == size
    requires i < n && j < size && at == offset + i * size + j
    ensures var g := PlaceEntries(f, offset, entries, size, n);
      at < |g| && g[at] == entries[i][j]
    decreases n
  {
    var m := n - 1;
    var before := PlaceEntries(f, offset, entries, size, m);
    SlotStep(offset, m, size);
    PlaceEntriesNext(f, offset, entries, size, m, n, before, offset + m * size, entries[m]);
    if i < m {
      PlaceEntriesSlot(f, offset, entries, size, m, i, j, at);
      SlotBefore(offset, i, m, size, j);
      OverwriteBefore(before, offset + m * size, entries[m], at);
    } else {
      assert i == m;
      OverwriteAt(before, offset + m * size, entries[m], at, j);
    }
  }

  /** Byte j of an earlier slot lies before slot m. */
  lemma SlotBefore(offset: nat, i: nat, m: nat, size: nat, j: nat)
    requires i < m && j < size
    ensures offset + i * size + j < offset + m * size
  {
    MulMonotone(i + 1, m, size);
    SlotStep(offset, i, size);
  }

  lemma ChunkInBounds(n: nat, size: nat, i: nat)
    requires size > 0 && i < n / size
    ensures 0 <= i * size && i * size + size <= n
  {
    MulMonotone(0, i, size);
    MulMonotone(i + 1, n / size, size);
  }

  /** Entry i of a table of `size`-byte entries stored contiguously. */
  function Chunk(table: seq<byte>, size: nat, i: nat): (entry: seq<byte>)
    requires size > 0 && i < |table| / size
    ensures |entry| == size
  {
    ChunkInBounds(|table|, size, i);
    table[i * size..i * size + size]
  }

  function Chunks(table: seq<byte>, size: nat): (entries: seq<seq<byte>>)
    requires size > 0
    ensures |entries| == |table| / size
    ensures forall i :: 0 <= i < |entries| ==> |entries[i]| == size
  {
    seq(|table| / size, i requires 0 <= i < |table| / size => Chunk(table, size, i))
  }

  lemma ChunksAt(table: seq<byte>, size: nat, i: nat)
    requires size > 0 && i < |table| / size
    ensures Chunks(table, size)[i] == Chunk(table, size, i)
  {
  }

  /** Writes the header at offset 0, then each of the `|phdrs| / size`
      entries of the table at `phoff + i * size`. */
  method WriteElfHeaderAndPhdrs(out: OutFile, ehdr: seq<byte>, phoff: nat, phdrs: seq<byte>, phdrSize: nat)
    requires phdrSize > 0
    modifies out
    ensures out.contents == PlaceEntries(Overwrite(old(out.contents), 0, ehdr), phoff, Chunks(phdrs, phdrSize), phdrSize, |phdrs| / phdrSize)
  {
    WriteFileAt(out, 0, ehdr);
    ghost var start := out.contents;
    ghost var entries := Chunks(phdrs, phdrSize);
    var numPhdrs := |phdrs| / phdrSize;
    var i := 0;
    while i < numPhdrs
      invariant i <= numPhdrs == |entries|
      invariant out.contents == PlaceEntries(start, phoff, entries, phdrSize, i)
    {
      WritePhdr(out, phoff, phdrs, phdrSize, i, start, entries);
      i := i + 1;
    }
  }

  /** One turn of the loop: entry i of the table goes to `phoff + i * size`,
      after the entries before it. */
  method WritePhdr(out: OutFile, phoff: nat, phdrs: seq<byte>, phdrSize: nat, i: nat,
                   ghost start: seq<byte>, ghost entries: seq<seq<byte>>)
    requires phdrSize > 0 && entries == Chunks(phdrs, phdrSize) && i < |entries|
    requires out.contents == PlaceEntries(start, phoff, entries, phdrSize, i)
    modifies out
    ensures out.contents == PlaceEntries(start, phoff, entries, phdrSize, i + 1)
  {
    SlotStep(phoff, i, phdrSize);
    ChunksAt(phdrs, phdrSize, i);
    WriteFileAt(out, phoff + i * phdrSize, Chunk(phdrs, phdrSize, i));
    PlaceEntriesNext(start, phoff, entries, phdrSize, i, i + 1, old(out.contents), phoff + i * phdrSize, Chunk(phdrs, phdrSize, i));
  }

  /** The writes split_impl and squash_impl begin with: the header at
      offset 0, then program header i at `phoff + i * size`. */
  method WriteHeaderAndTable(out: OutFile, ehdr: seq<byte>, phoff: nat, phdrs: seq<seq<byte>>, size: nat)
    modifies out
    ensures out.contents == PlaceEntries(Overwrite(old(out.contents), 0, ehdr), phoff, phdrs, size, |phdrs|)
  {
    WriteFileAt(out, 0, ehdr);
    ghost var start := out.contents;
    var i := 0;
    while i < |phdrs|
      invariant i <= |phdrs|
      invariant out.contents == PlaceEntries(start, phoff, phdrs, size, i)
    {
      ghost var before := out.contents;
      SlotStep(phoff, i, size);
      WriteFileAt(out, phoff + i * size, phdrs[i]);
      PlaceEntriesNext(start, phoff, phdrs, size, i, i + 1, before, phoff + i * size, phdrs[i]);
      i := i + 1;
    }
  }

  /** A header that ends before the table survives the table's writes
      verbatim. */
  lemma WriteElfHeaderAndPhdrsKeepsHeader(f: seq<byte>, ehdr: seq<byte>, phoff: nat, phdrs: seq<byte>, size: nat, k: nat)
    requires size > 0 && |ehdr| <= phoff && k < |ehdr|
    ensures var g := PlaceEntries(Overwrite(f, 0, ehdr), phoff, Chunks(phdrs, size), size, |phdrs| / size);
      k < |g| && g[k] == ehdr[k]
  {
    PlaceEntriesBefore(Overwrite(f, 0, ehdr), phoff, Chunks(phdrs, size), size, |phdrs| / size, k);
  }

  /** Byte j of entry i of the table lands at `phoff + i * size + j`. */
  lemma WriteElfHeaderAndPhdrsPlacesEntry(f: seq<byte>, ehdr: seq<byte>, phoff: nat, phdrs: seq<byte>, size: nat, i: nat, j: nat)
    requires size > 0 && i < |phdrs| / size && j < size
    ensures 0 <= i * size + j < |phdrs|
    ensures var g := PlaceEntries(Overwrite(f, 0, ehdr), phoff, Chunks(phdrs, size), size, |phdrs| / size);
      phoff + i * size + j < |g| && g[phoff + i * size + j] == phdrs[i * size + j]
  {
    ChunkInBounds(|phdrs|, size, i);
    PlaceEntriesSlot(Overwrite(f, 0, ehdr), phoff, Chunks(phdrs, size), size, |phdrs| / size, i, j, phoff + i * size + j);
  }

  /** The table as one contiguous buffer, entry after entry, as the
      tools hand it to the writer. */
  function Flatten(entries: seq<seq<byte>>): (table: seq<byte>)
  {
    if entries == [] then [] else Flatten(entries[..|entries| - 1]) + entries[|entries| - 1]
  }

  lemma DivOfMultiple(m: nat, size: nat)
    requires size > 0
    ensures (m * size) / size == m
  {
    var n := m * size;
    var q := n / size;
    var r := n % size;
    assert q * size + r == n && 0 <= r < size;
    if q < m {
      MulMonotone(q + 1, m, size);
      SlotStep(0, q, size);
    } else if q > m {
      MulMonotone(m + 1, q, size);
      SlotStep(0, m, size);
    }
  }

  lemma {:induction false} FlattenLength(entries: seq<seq<byte>>, size: nat)
    requires forall i :: 0 <= i < |entries| ==> |entries[i]| == size
    ensures |Flatten(entries)| == |entries| * size
    decreases |entries|
  {
    if entries != [] {
      var n := |entries| - 1;
      FlattenLength(entries[..n], size);
      SlotStep(0, n, size);
    }
  }

  /** Entry i of the buffer occupies bytes `[i * size, i * size + size)`. */
  lemma {:induction false} FlattenSlice(entries: seq<seq<byte>>, size: nat, i: nat)
    requires forall i :: 0 <= i < |entries| ==> |entries[i]| == size
    requires i < |entries|
    ensures i * size + size <= |Flatten(entries)|
    ensures Flatten(entries)[i * size..i * size + size] == entries[i]
    decreases |entries|
  {
    var n := |entries| - 1;
    var prefix := entries[..n];
    var head := Flatten(prefix);
    FlattenLength(prefix, size);
    SlotStep(0, i, size);
    assert Flatten(entries) == head + entries[n];
    if i < n {
      FlattenSlice(prefix, size, i);
      MulMonotone(i + 1, n, size);
      assert (head + entries[n])[i * size..i * size + size] == head[i * size..i * size + size];
    } else {
      assert (head + entries[n])[|head|..|head| + size] == entries[n];
    }
  }

  /** Cutting a buffer of equal-sized entries back into entries gives the
      entries. */
  lemma ChunksOfFlatten(entries: seq<seq<byte>>, size: nat)
    requires size > 0
    requires forall i :: 0 <= i < |entries| ==> |entries[i]| == size
    ensures |Flatten(entries)| == |entries| * size && |Flatten(entries)| / size == |entries|
    ensures Chunks(Flatten(entries), size) == entries
  {
    FlattenLength(entries, size);
    DivOfMultiple(|entries|, size);
    var chunks := Chunks(Flatten(entries), size);
    forall i | 0 <= i < |entries| ensures chunks[i] == entries[i] {
      ChunksAt(Flatten(entries), size, i);
      FlattenSlice(entries, size, i);
    }
  }

  /** Given the table as one contiguous buffer, write_elf_header_and_phdrs
      writes what writing the entries one by one writes. */
  lemma WriteElfHeaderAndPhdrsOfTable(f: seq<byte>, ehdr: seq<byte>, phoff: nat, phdrs: seq<seq<byte>>, size: nat)
    requires size > 0 && forall i :: 0 <= i < |phdrs| ==> |phdrs[i]| == size
    ensures var table := Flatten(phdrs);
      PlaceEntries(Overwrite(f, 0, ehdr), phoff, Chunks(table, size), size, |table| / size)
      == PlaceEntries(Overwrite(f, 0, ehdr), phoff, phdrs, size, |phdrs|)
  {
    ChunksOfFlatten(phdrs, size);
  }

  /** The header and table region that both tools write first. */
  function HeaderRegion(img: ElfImage, c: ElfClass): seq<byte>
  {
    PlaceEntries(Overwrite([], 0, img.ehdr), img.phoff, img.phdrs, SizeOf(c, ProgramHeader), |img.phdrs|)
  }

  /** Placing `n` entries of `size` bytes extends the file to the end of
      the last one, if it ends past the file. */
  lemma {:induction false} PlaceEntriesLength(f: seq<byte>, offset: nat, entries: seq<seq<byte>>, size: nat, n: nat)
    requires n <= |entries| && forall i :: 0 <= i < |entries| ==> |entries[i]| == size
    ensures |PlaceEntries(f, offset, entries, size, n)| == if n == 0 || size == 0 then |f| else Max(|f|, offset + n * size)
    decreases n
  {
    if n > 0 {
      PlaceEntriesLength(f, offset, entries, size, n - 1);
      SlotStep(offset, n - 1, size);
    }
  }

  /** The end of the header or of the program header table, whichever is
      later. */
  function HeaderRegionEnd(img: ElfImage, c: ElfClass): nat
  {
    if |img.phdrs| == 0 then SizeOf(c, ElfHeader)
    else Max(SizeOf(c, ElfHeader), img.phoff + |img.phdrs| * SizeOf(c, ProgramHeader))
  }

  /** The header region ends at the end of the header or of the table,
      whichever is later. */
  lemma HeaderRegionLength(img: ElfImage, c: ElfClass)
    requires WellFormedImage(img, c)
    ensures |HeaderRegion(img, c)| == HeaderRegionEnd(img, c)
  {
    PlaceEntriesLength(Overwrite([], 0, img.ehdr), img.phoff, img.phdrs, SizeOf(c, ProgramHeader), |img.phdrs|);
  }

  /* ---------------------------------------------------------------------- */
  /* Writes that copy bytes of one source file to their own positions       */
  /* ---------------------------------------------------------------------- */

  /** Byte k of `f` exists and equals byte k of `src`. */
  predicate Agrees(f: seq<byte>, src: seq<byte>, k: int)
  {
    0 <= k < |f| && k < |src| && f[k] == src[k]
  }

  predicate AgreesOn(f: seq<byte>, src: seq<byte>, lo: int, hi: int)
  {
    forall k :: lo <= k < hi ==> Agrees(f, src, k)
  }

  /** The `len` bytes of `f` at `at` are the `len` bytes of `src` at `from`. */
  predicate CopiedFrom(f: seq<byte>, at: int, src: seq<byte>, from: int, len: int)
  {
    0 <= at && 0 <= from && 0 <= len && at + len <= |f| && from + len <= |src|
    && f[at..at + len] == src[from..from + len]
  }

  /** Every byte of `f` is the byte of `src` at the same position or a zero
      left by a gap, and `f` is no longer than `src`. */
  predicate Consistent(f: seq<byte>, src: seq<byte>)
  {
    |f| <= |src| && forall k :: 0 <= k < |f| ==> f[k] == src[k] || f[k] == 0
  }

  /** Entry i of `entries` is the `size` bytes of `src` at
      `offset + i * size`. */
  predicate EntriesFrom(src: seq<byte>, offset: nat, entries: seq<seq<byte>>, size: nat)
  {
    forall i :: 0 <= i < |entries| ==>
      offset + i * size + size <= |src| && entries[i] == src[offset + i * size..offset + i * size + size]
  }

  /** Writing bytes of `src` at their own position keeps a byte that
      agreed with `src`. */
  lemma OverwriteKeepsAgreement(f: seq<byte>, src: seq<byte>, offset: nat, size: nat, data: seq<byte>, k: int)
    requires offset + size <= |src| && data == src[offset..offset + size]
    requires Agrees(f, src, k)
    ensures Agrees(Overwrite(f, offset, data), src, k)
  {
  }

  /** ... and keeps a file consistent with `src`. */
  lemma OverwriteKeepsConsistent(f: seq<byte>, src: seq<byte>, offset: nat, size: nat, data: seq<byte>)
    requires offset + size <= |src| && data == src[offset..offset + size]
    requires Consistent(f, src)
    ensures Consistent(Overwrite(f, offset, data), src)
  {
  }

  lemma {:induction false} PlaceEntriesKeepsAgreement(f: seq<byte>, src: seq<byte>, offset: nat, entries: seq<seq<byte>>, size: nat, n: nat, k: int)
    requires n <= |entries| && EntriesFrom(src, offset, entries, size)
    requires Agrees(f, src, k)
    ensures Agrees(PlaceEntries(f, offset, entries, size, n), src, k)
    decreases n
  {
    if n > 0 {
      PlaceEntriesKeepsAgreement(f, src, offset, entries, size, n - 1, k);
      SlotStep(offset, n - 1, size);
      var at := offset + (n - 1) * size;
      assert at + size <= |src| && entries[n - 1] == src[at..at + size];
      OverwriteKeepsAgreement(PlaceEntries(f, offset, entries, size, n - 1), src, at, size, entries[n - 1], k);
    }
  }

  lemma {:induction false} PlaceEntriesKeepsConsistent(f: seq<byte>, src: seq<byte>, offset: nat, entries: seq<seq<byte>>, size: nat, n: nat)
    requires n <= |entries| && EntriesFrom(src, offset, entries, size)
    requires Consistent(f, src)
    ensures Consistent(PlaceEntries(f, offset, entries, size, n), src)
    decreases n
  {
    if n > 0 {
      PlaceEntriesKeepsConsistent(f, src, offset, entries, size, n - 1);
      SlotStep(offset, n - 1, size);
      var at := offset + (n - 1) * size;
      assert at + size <= |src| && entries[n - 1] == src[at..at + size];
      OverwriteKeepsConsistent(PlaceEntries(f, offset, entries, size, n - 1), src, at, size, entries[n - 1]);
    }
  }

  /** Entry i, placed at its own offset, agrees with `src` there. */
  lemma PlaceEntriesAgreeOnSlot(f: seq<byte>, src: seq<byte>, offset: nat, entries: seq<seq<byte>>, size: nat, i: nat)
    requires EntriesFrom(src, offset, entries, size) && i < |entries|
    ensures AgreesOn(PlaceEntries(f, offset, entries, size, |entries|), src, offset + i * size, offset + i * size + size)
  {
    forall k | offset + i * size <= k < offset + i * size + size
      ensures Agrees(PlaceEntries(f, offset, entries, size, |entries|), src, k)
    {
      PlaceEntriesAgreesAt(f, src, offset, entries, size, i, k);
    }
  }

  lemma PlaceEntriesAgreesAt(f: seq<byte>, src: seq<byte>, offset: nat, entries: seq<seq<byte>>, size: nat, i: nat, k: int)
    requires EntriesFrom(src, offset, entries, size) && i < |entries|
    requires offset + i * size <= k < offset + i * size + size
    ensures Agrees(PlaceEntries(f, offset, entries, size, |entries|), src, k)
  {
    var lo := offset + i * size;
    assert lo + size <= |src| && entries[i] == src[lo..lo + size];
    assert forall j :: 0 <= j < |entries| ==> |entries[j]| == size;
    var j := k - lo;
    PlaceEntriesSlot(f, offset, entries, size, |entries|, i, j, k);
    assert entries[i][j] == src[k];
  }

  /** The header region of a file agrees with the file on the header and on
      every program header, and holds nothing else but zeros. */
  lemma HeaderRegionFromSource(file: seq<byte>, c: ElfClass, fileLittleEndian: bool)
    requires ReadElfImage(file, c, fileLittleEndian).Ok?
    ensures var img := ReadElfImage(file, c, fileLittleEndian).value;
      var region := HeaderRegion(img, c);
      var size := SizeOf(c, ProgramHeader);
      && Consistent(region, file)
      && AgreesOn(region, file, 0, SizeOf(c, ElfHeader))
      && (forall i :: 0 <= i < |img.phdrs| ==> AgreesOn(region, file, img.phoff + i * size, img.phoff + i * size + size))
      && (forall k :: SizeOf(c, ElfHeader) <= k < |region| && (forall i :: 0 <= i < |img.phdrs| ==> !InSlot(img.phoff, size, i, k)) ==>
            region[k] == 0)
  {
    var img := ReadElfImage(file, c, fileLittleEndian).value;
    ImageEntriesFrom(file, c, fileLittleEndian);
    PlacedFromSource(file, img.ehdr, img.phoff, img.phdrs, SizeOf(c, ProgramHeader));
    HeaderRegionZeros(img.ehdr, img.phoff, img.phdrs, SizeOf(c, ProgramHeader));
  }

  /** Byte k lies in slot i of a table of `size`-byte entries at `offset`. */
  predicate InSlot(offset: nat, size: nat, i: nat, k: int)
  {
    offset + i * size <= k < offset + i * size + size
  }

  /** `g` is at least as long as `f`, and byte k of `g` is byte k of `f`,
      or a zero past the end of `f`. */
  predicate KeptOrZero(g: seq<byte>, f: seq<byte>, k: nat)
  {
    |f| <= |g| && (k < |g| ==> g[k] == if k < |f| then f[k] else 0)
  }

  /** A write that misses byte k keeps it as it was. */
  lemma OverwriteKeepsOrZero(g: seq<byte>, f: seq<byte>, at: nat, entry: seq<byte>, k: nat)
    requires KeptOrZero(g, f, k) && !(at <= k < at + |entry|)
    ensures KeptOrZero(Overwrite(g, at, entry), f, k)
  {
    if k < |Overwrite(g, at, entry)| {
      OverwriteByte(g, at, entry, k);
    }
  }

  /** A byte in none of the first n slots keeps the value it had before
      the entries were written, or is a zero of the gap they opened. */
  lemma {:induction false} PlaceEntriesOutsideSlots(f: seq<byte>, offset: nat, entries: seq<seq<byte>>, size: nat, n: nat, k: nat)
    requires n <= |entries| && forall i :: 0 <= i < |entries| ==> |entries[i]| == size
    requires forall i :: 0 <= i < n ==> !InSlot(offset, size, i, k)
    ensures KeptOrZero(PlaceEntries(f, offset, entries, size, n), f, k)
    decreases n
  {
    if n > 0 {
      PlaceEntriesOutsideSlots(f, offset, entries, size, n - 1, k);
      assert !InSlot(offset, size, n - 1, k);
      OverwriteKeepsOrZero(PlaceEntries(f, offset, entries, size, n - 1), f, offset + (n - 1) * size, entries[n - 1], k);
    }
  }

  /** The header region holds zeros outside the header and the program
      header slots. */
  lemma HeaderRegionZeros(ehdr: seq<byte>, phoff: nat, phdrs: seq<seq<byte>>, size: nat)
    requires forall i :: 0 <= i < |phdrs| ==> |phdrs[i]| == size
    ensures var region := PlaceEntries(Overwrite([], 0, ehdr), phoff, phdrs, size, |phdrs|);
      forall k :: |ehdr| <= k < |region| && (forall i :: 0 <= i < |phdrs| ==> !InSlot(phoff, size, i, k)) ==>
        region[k] == 0
  {
    var start := Overwrite([], 0, ehdr);
    var region := PlaceEntries(start, phoff, phdrs, size, |phdrs|);
    forall k | |ehdr| <= k < |region| && (forall i :: 0 <= i < |phdrs| ==> !InSlot(phoff, size, i, k))
      ensures region[k] == 0
    {
      PlaceEntriesOutsideSlots(start, phoff, phdrs, size, |phdrs|, k);
    }
  }

  /** Writing the first bytes of `file` at 0 and then entries taken from
      `file` at their own offsets agrees with `file` on all of them, and
      writes nothing else but zeros. */
  lemma PlacedFromSource(file: seq<byte>, ehdr: seq<byte>, phoff: nat, phdrs: seq<seq<byte>>, size: nat)
    requires |ehdr| <= |file| && ehdr == file[..|ehdr|]
    requires EntriesFrom(file, phoff, phdrs, size)
    ensures var region := PlaceEntries(Overwrite([], 0, ehdr), phoff, phdrs, size, |phdrs|);
      && Consistent(region, file)
      && AgreesOn(region, file, 0, |ehdr|)
      && (forall i :: 0 <= i < |phdrs| ==> AgreesOn(region, file, phoff + i * size, phoff + i * size + size))
  {
    var e := |ehdr|;
    var start := Overwrite([], 0, ehdr);
    var region := PlaceEntries(start, phoff, phdrs, size, |phdrs|);
    assert ehdr == file[0..e];
    OverwriteKeepsConsistent([], file, 0, e, ehdr);
    PlaceEntriesKeepsConsistent(start, file, phoff, phdrs, size, |phdrs|);
    forall k | 0 <= k < e ensures Agrees(region, file, k) {
      PlaceEntriesKeepsAgreement(start, file, phoff, phdrs, size, |phdrs|, k);
    }
    forall i | 0 <= i < |phdrs|
      ensures AgreesOn(region, file, phoff + i * size, phoff + i * size + size)
    {
      PlaceEntriesAgreeOnSlot(start, file, phoff, phdrs, size, i);
    }
  }

  /** The program headers of an image that reads are the table's bytes. */
  lemma ImageEntriesFrom(file: seq<byte>, c: ElfClass, fileLittleEndian: bool)
    requires ReadElfImage(file, c, fileLittleEndian).Ok?
    ensures var img := ReadElfImage(file, c, fileLittleEndian).value;
      EntriesFrom(file, img.phoff, img.phdrs, SizeOf(c, ProgramHeader))
  {
    var img := ReadElfImage(file, c, fileLittleEndian).value;
    ProgramHeaderTableEntries(file, c, img.phoff, |img.phdrs|);
  }

  lemma AgreesOnSlice(other: seq<byte>, file: seq<byte>, lo: nat, hi: nat)
    requires lo < hi && AgreesOn(other, file, lo, hi)
    ensures hi <= |other| && hi <= |file| && other[lo..hi] == file[lo..hi]
  {
    assert Agrees(other, file, hi - 1);
    forall k | lo <= k < hi ensures other[k] == file[k] {
      assert Agrees(other, file, k);
    }
  }

  /** Reading the table from a file that agrees with `file` on every
      table entry gives the same entries. */
  lemma {:induction false} ProgramHeaderTableFromAgreeing(other: seq<byte>, file: seq<byte>, c: ElfClass, phoff: nat, phnum: nat)
    requires ProgramHeaderTable(file, c, phoff, phnum).Ok?
    requires forall i :: 0 <= i < phnum ==>
      AgreesOn(other, file, phoff + i * SizeOf(c, ProgramHeader), phoff + i * SizeOf(c, ProgramHeader) + SizeOf(c, ProgramHeader))
    ensures ProgramHeaderTable(other, c, phoff, phnum) == ProgramHeaderTable(file, c, phoff, phnum)
    decreases phnum
  {
    if phnum > 0 {
      var size := SizeOf(c, ProgramHeader);
      MulMonotone(phnum - 1, phnum, size);
      assert ProgramHeaderTable(file, c, phoff, phnum - 1).Ok?;
      ProgramHeaderTableFromAgreeing(other, file, c, phoff, phnum - 1);
      var lo := phoff + (phnum - 1) * size;
      AgreesOnSlice(other, file, lo, lo + size);
      assert ReadStructAt(other, lo, c, ProgramHeader) == ReadStructAt(file, lo, c, ProgramHeader);
    }
  }

  /** A file that agrees with `file` on the header and on every program
      header has the same header and table. */
  lemma ReadElfImageFromAgreeing(other: seq<byte>, file: seq<byte>, c: ElfClass, fileLittleEndian: bool)
    requires ReadElfImage(file, c, fileLittleEndian).Ok?
    requires AgreesOn(other, file, 0, SizeOf(c, ElfHeader))
    requires var img := ReadElfImage(file, c, fileLittleEndian).value;
      var size := SizeOf(c, ProgramHeader);
      forall i :: 0 <= i < |img.phdrs| ==> AgreesOn(other, file, img.phoff + i * size, img.phoff + i * size + size)
    ensures ReadElfImage(other, c, fileLittleEndian) == ReadElfImage(file, c, fileLittleEndian)
  {
    var img := ReadElfImage(file, c, fileLittleEndian).value;
    var e := SizeOf(c, ElfHeader);
    AgreesOnSlice(other, file, 0, e);
    assert other[..e] == other[0..e];
    assert ReadElfHeader(other, c) == ReadElfHeader(file, c);
    var phnum := Phnum(img.ehdr, c, fileLittleEndian);
    ProgramHeaderTableFromAgreeing(other, file, c, img.phoff, phnum);
  }

  /* ---------------------------------------------------------------------- */
  /* File names                                                             */
  /* ---------------------------------------------------------------------- */

  /** The last component of a path: the longest suffix without a '/'. */
  function FileName(path: string): (name: string)
    ensures |name| <= |path| && name == path[|path| - |name|..]
    ensures forall k :: 0 <= k < |name| ==> name[k] != '/'
    ensures |name| < |path| ==> path[|path| - |name| - 1] == '/'
    decreases |path|
  {
    if path == [] || path[|path| - 1] == '/' then []
    else FileName(path[..|path| - 1]) + [path[|path| - 1]]
  }

  /** The file name's extension is ".mdt": the name ends with ".mdt" and is
      not just ".mdt" (a leading dot does not start an extension). */
  predicate HasMdtExtension(path: string)
  {
    var name := FileName(path);
    |name| > 4 && name[|name| - 4..] == ".mdt"
  }

  lemma MdtExtensionIsSuffix(path: string)
    requires HasMdtExtension(path)
    ensures |path| > 4 && path[|path| - 4..] == ".mdt"
  {
    var name := FileName(path);
    assert path[|path| - 4..] == name[|name| - 4..];
  }
}
