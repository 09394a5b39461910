/**
 The splitter: turns a PIL image (.mbn) into a metadata file (.mdt) and one
 segment file (.bNN) per non-empty segment.

 The .mdt holds the ELF header and program header table at the offsets they
 have in the image, followed by the bytes of every non-empty hash segment in
 table order. Segment i, hash or not, is also written to its own file; the
 segment files are a map from the program header index i (the NN of .bNN)
 to their contents.
 */
module PilSplitter {
  import opened PilCommon

  /** What the splitter leaves on disk. */
  datatype SplitOutput = SplitOutput(mdt: seq<byte>, segmentFiles: map<nat, seq<byte>>)

  /** A segment can be read from the image: it is empty (and skipped
      before its offset is looked at) or lies inside the image. */
  predicate SegmentReadable(mbn: seq<byte>, info: PhdrInfo)
  {
    info.filesz > 0 ==> info.offset + info.filesz <= |mbn|
  }

  /** The first `n` segments can be read from the image. */
  predicate SegmentsReadable(mbn: seq<byte>, infos: seq<PhdrInfo>, n: nat)
    requires n <= |infos|
  {
    forall i :: 0 <= i < n ==> SegmentReadable(mbn, infos[i])
  }

  /** The `p_filesz` bytes of a segment, starting at its `p_offset`. */
  function SegmentBytes(mbn: seq<byte>, info: PhdrInfo): (data: seq<byte>)
    requires info.offset + info.filesz <= |mbn|
    ensures |data| == info.filesz
  {
    mbn[info.offset..info.offset + info.filesz]
  }

  /** What handling a readable segment appends to the .mdt: its bytes if it
      is a non-empty hash segment, nothing otherwise. */
  function SegmentOutput(mbn: seq<byte>, info: PhdrInfo): seq<byte>
    requires SegmentReadable(mbn, info)
  {
    if info.filesz > 0 && IsPilHashSegment(info.flags) then SegmentBytes(mbn, info) else []
  }

  /** The bytes appended to the .mdt after the header region while the
      first `n` segments are handled: the non-empty hash segments among
      them, in table order. */
  function HashStream(mbn: seq<byte>, infos: seq<PhdrInfo>, n: nat): seq<byte>
    requires n <= |infos| && SegmentsReadable(mbn, infos, n)
  {
    if n == 0 then []
    else
      var last := infos[n - 1];
      assert SegmentReadable(mbn, last);
      HashStream(mbn, infos, n - 1) + SegmentOutput(mbn, last)
  }

  /** The segment files written while the first `n` segments are handled:
      one per non-empty segment, keyed by its index. */
  function SegmentFiles(mbn: seq<byte>, infos: seq<PhdrInfo>, n: nat): map<nat, seq<byte>>
    requires n <= |infos| && SegmentsReadable(mbn, infos, n)
  {
    if n == 0 then map[]
    else
      var last := infos[n - 1];
      assert SegmentReadable(mbn, last);
      var earlier := SegmentFiles(mbn, infos, n - 1);
      if last.filesz > 0 then WriteSegmentFile(earlier, n - 1, SegmentBytes(mbn, last)) else earlier
  }

  /** Creating (or truncating) .bNN for index `index` and writing `data` to
      it: that file then holds exactly `data`, and the other segment files
      are left alone. */
  function WriteSegmentFile(files: map<nat, seq<byte>>, index: nat, data: seq<byte>): (r: map<nat, seq<byte>>)
    ensures r.Keys == files.Keys + {index}
    ensures r[index] == data
    ensures forall k :: k in files && k != index ==> r[k] == files[k]
  {
    files[index := data]
  }

  /** The outcome of splitting an image of class `c` and byte order
      `fileLittleEndian`: the header and table are read first, then every
      non-empty segment; any short read fails the split. */
  function SplitElf(mbn: seq<byte>, c: ElfClass, fileLittleEndian: bool): Result<SplitOutput>
  {
    match ReadElfImage(mbn, c, fileLittleEndian)
    case Err(e) => Err(e)
    case Ok(img) =>
      var infos := Infos(img, c, fileLittleEndian);
      if !SegmentsReadable(mbn, infos, |infos|) then Err(ShortRead)
      else Ok(SplitOutput(HeaderRegion(img, c) + HashStream(mbn, infos, |infos|), SegmentFiles(mbn, infos, |infos|)))
  }

  /** The outcome of `split`: the metadata path is checked first, then the
      image is identified and split according to its class and byte order. */
  function SplitOutcome(mbn: seq<byte>, mdtPath: string): Result<SplitOutput>
  {
    if !HasMdtExtension(mdtPath) then Err(NotMdtFile)
    else
      match DetectElfFormat(mbn)
      case Err(e) => Err(e)
      case Ok(format) => SplitElf(mbn, format.elfClass, format.isLittleEndian)
  }

  /* ---------------------------------------------------------------------- */
  /* The splitter as the program runs it                                    */
  /* ---------------------------------------------------------------------- */

  /** Handling segment i extends the hash stream by that segment when it
      is a non-empty hash segment, and writes its file when it is non-empty. */
  lemma SegmentStep(mbn: seq<byte>, infos: seq<PhdrInfo>, i: nat)
    requires i < |infos| && SegmentsReadable(mbn, infos, i) && SegmentReadable(mbn, infos[i])
    ensures SegmentsReadable(mbn, infos, i + 1)
    ensures HashStream(mbn, infos, i + 1) == HashStream(mbn, infos, i) + SegmentOutput(mbn, infos[i])
    ensures SegmentFiles(mbn, infos, i + 1) ==
      if infos[i].filesz > 0 then WriteSegmentFile(SegmentFiles(mbn, infos, i), i, SegmentBytes(mbn, infos[i]))
      else SegmentFiles(mbn, infos, i)
  {
  }

  lemma TruncatedSegment(mbn: seq<byte>, infos: seq<PhdrInfo>, i: nat)
    requires i < |infos| && infos[i].filesz > 0 && infos[i].offset + infos[i].filesz > |mbn|
    ensures !SegmentsReadable(mbn, infos, |infos|)
  {
    assert !SegmentReadable(mbn, infos[i]);
  }

  /** split_impl: writes the header and the table to the .mdt, then handles
      the segments in table order. */
  method SplitImpl(mbn: seq<byte>, mdt: OutFile, c: ElfClass, fileLittleEndian: bool, hostLittleEndian: bool)
    returns (r: Result<map<nat, seq<byte>>>)
    requires mdt.contents == []
    modifies mdt
    ensures r.Ok? ==> SplitElf(mbn, c, fileLittleEndian) == Ok(SplitOutput(mdt.contents, r.value))
    ensures r.Err? ==> SplitElf(mbn, c, fileLittleEndian) == Err(r.error)
  {
    var header := ReadElfHeader(mbn, c);
    if header.Err? {
      return Err(ShortRead);
    }
    var ehdr := header.value;
    var table := ReadProgramHeaders(mbn, ehdr, c, fileLittleEndian, hostLittleEndian);
    if table.Err? {
      return Err(table.error);
    }
    var phdrs := table.value;
    var phoff := ReadPhoff(ehdr, c, fileLittleEndian, hostLittleEndian);
    ghost var img := ElfImage(ehdr, phoff, phdrs);
    assert ReadElfImage(mbn, c, fileLittleEndian) == Ok(img);

    WriteHeaderAndTable(mdt, ehdr, phoff, phdrs, SizeOf(c, ProgramHeader));
    ghost var region := mdt.contents;
    assert region == HeaderRegion(img, c);

    ghost var infos := Infos(img, c, fileLittleEndian);
    InfosAt(img, c, fileLittleEndian);
    r := SplitSegments(mbn, mdt, phdrs, c, fileLittleEndian, hostLittleEndian, infos);
  }

  /** The segment loop of split_impl: every non-empty segment goes to its
      own file, and hash segments are also appended to the .mdt. */
  method SplitSegments(mbn: seq<byte>, mdt: OutFile, phdrs: seq<seq<byte>>, c: ElfClass,
                       fileLittleEndian: bool, hostLittleEndian: bool, ghost infos: seq<PhdrInfo>)
    returns (r: Result<map<nat, seq<byte>>>)
    requires DecodedFrom(infos, phdrs, c, fileLittleEndian)
    modifies mdt
    ensures r.Ok? ==> SegmentsReadable(mbn, infos, |infos|)
                      && mdt.contents == old(mdt.contents) + HashStream(mbn, infos, |infos|)
                      && r.value == SegmentFiles(mbn, infos, |infos|)
    ensures r.Err? ==> !SegmentsReadable(mbn, infos, |infos|) && r.error == ShortRead
  {
    ghost var region := mdt.contents;
    var files: map<nat, seq<byte>> := map[];
    var i := 0;
    while i < |phdrs|
      invariant i <= |phdrs|
      invariant SegmentsReadable(mbn, infos, i)
      invariant mdt.contents == region + HashStream(mbn, infos, i)
      invariant files == SegmentFiles(mbn, infos, i)
    {
      var next := SplitNext(mbn, mdt, phdrs, i, files, c, fileLittleEndian, hostLittleEndian, infos, region);
      if next.Err? {
        return Err(next.error);
      }
      files := next.value;
      i := i + 1;
    }
    return Ok(files);
  }

  /** Segment `index` handled after the ones before it: on success the
      .mdt and the segment files are those of the first `index + 1`
      segments; a short read means some segment cannot be read. */
  method SplitNext(mbn: seq<byte>, mdt: OutFile, phdrs: seq<seq<byte>>, index: nat, files: map<nat, seq<byte>>,
                   c: ElfClass, fileLittleEndian: bool, hostLittleEndian: bool,
                   ghost infos: seq<PhdrInfo>, ghost region: seq<byte>)
    returns (r: Result<map<nat, seq<byte>>>)
    requires DecodedFrom(infos, phdrs, c, fileLittleEndian) && index < |phdrs|
    requires SegmentsReadable(mbn, infos, index)
    requires mdt.contents == region + HashStream(mbn, infos, index) && files == SegmentFiles(mbn, infos, index)
    modifies mdt
    ensures r.Err? ==> !SegmentsReadable(mbn, infos, |infos|) && r.error == ShortRead
    ensures r.Ok? ==> && SegmentsReadable(mbn, infos, index + 1)
                      && mdt.contents == region + HashStream(mbn, infos, index + 1)
                      && r.value == SegmentFiles(mbn, infos, index + 1)
  {
    ghost var before := mdt.contents;
    assert infos[index] == PhdrFields(phdrs[index], c, fileLittleEndian);
    r := SplitSegment(mbn, mdt, phdrs[index], index, files, c, fileLittleEndian, hostLittleEndian, infos[index]);
    if r.Err? {
      TruncatedSegment(mbn, infos, index);
      return;
    }
    SegmentStep(mbn, infos, index);
    StreamStep(mbn, infos, index, region, before, mdt.contents);
  }

  /** One turn of the segment loop of split_impl, for segment `index`: an
      empty segment is skipped; otherwise its bytes are read (a short read
      fails), written to its own file and, for a hash segment, appended to
      the .mdt. */
  method SplitSegment(mbn: seq<byte>, mdt: OutFile, phdr: seq<byte>, index: nat, files: map<nat, seq<byte>>,
                      c: ElfClass, fileLittleEndian: bool, hostLittleEndian: bool, ghost info: PhdrInfo)
    returns (r: Result<map<nat, seq<byte>>>)
    requires |phdr| == SizeOf(c, ProgramHeader) && info == PhdrFields(phdr, c, fileLittleEndian)
    modifies mdt
    ensures && (r.Ok? <==> SegmentReadable(mbn, info))
      && (r.Err? ==> r.error == ShortRead && mdt.contents == old(mdt.contents))
      && (r.Ok? ==> mdt.contents == old(mdt.contents) + SegmentOutput(mbn, info)
                    && r.value == if info.filesz > 0 then WriteSegmentFile(files, index, SegmentBytes(mbn, info)) else files)
  {
    var decoded := GetPhdrInfo(phdr, c, fileLittleEndian, hostLittleEndian);
    if decoded.filesz == 0 {
      return Ok(files);
    }
    var segment := ReadFileAt(mbn, decoded.offset, decoded.filesz);
    if segment.Err? {
      return Err(segment.error);
    }
    if IsPilHashSegment(decoded.flags) {
      AppendToFile(mdt, segment.value);
    }
    return Ok(WriteSegmentFile(files, index, segment.value));
  }

  /** split: checks the metadata path, creates the .mdt, identifies the
      image and dispatches on its class. */
  method Split(mbn: seq<byte>, mdtPath: string, hostLittleEndian: bool) returns (r: Result<SplitOutput>)
    ensures r == SplitOutcome(mbn, mdtPath)
  {
    if !HasMdtExtension(mdtPath) {
      return Err(NotMdtFile);
    }
    var mdt := new OutFile();
    var format := DetectElfFormat(mbn);
    if format.Err? {
      return Err(format.error);
    }
    var files := SplitImpl(mbn, mdt, format.value.elfClass, format.value.isLittleEndian, hostLittleEndian);
    if files.Err? {
      return Err(files.error);
    }
    return Ok(SplitOutput(mdt.contents, files.value));
  }

  /* ---------------------------------------------------------------------- */
  /* What the split produces                                                */
  /* ---------------------------------------------------------------------- */

  /** The decoded program headers of an image whose table reads. */
  function ImageInfos(mbn: seq<byte>, c: ElfClass, fileLittleEndian: bool): seq<PhdrInfo>
    requires ReadElfImage(mbn, c, fileLittleEndian).Ok?
  {
    Infos(ReadElfImage(mbn, c, fileLittleEndian).value, c, fileLittleEndian)
  }

  lemma {:induction false} HashStreamLength(mbn: seq<byte>, infos: seq<PhdrInfo>, n: nat)
    requires n <= |infos| && SegmentsReadable(mbn, infos, n)
    ensures |HashStream(mbn, infos, n)| == HashTotal(infos, n)
    decreases n
  {
    if n > 0 {
      HashStreamLength(mbn, infos, n - 1);
    }
  }

  /** Non-empty hash segment j sits, whole, in the hash stream of any
      n > j segments, at the total size of the hash segments before it. */
  lemma {:induction false} HashStreamSegment(mbn: seq<byte>, infos: seq<PhdrInfo>, n: nat, j: nat)
    requires n <= |infos| && SegmentsReadable(mbn, infos, n)
    requires j < n && infos[j].filesz > 0 && IsPilHashSegment(infos[j].flags)
    ensures CopiedFrom(HashStream(mbn, infos, n), HashTotal(infos, j), mbn, infos[j].offset, infos[j].filesz)
    decreases n
  {
    assert SegmentsReadable(mbn, infos, n - 1);
    if j < n - 1 {
      HashStreamSegment(mbn, infos, n - 1, j);
      HashStreamKeepsSegment(mbn, infos, n, j);
    } else {
      HashStreamLastSegment(mbn, infos, n);
    }
  }

  /** Handling segment n - 1 leaves the hash segments before it in place. */
  lemma HashStreamKeepsSegment(mbn: seq<byte>, infos: seq<PhdrInfo>, n: nat, j: nat)
    requires 0 < n <= |infos| && SegmentsReadable(mbn, infos, n) && SegmentsReadable(mbn, infos, n - 1)
    requires j < n - 1
    requires CopiedFrom(HashStream(mbn, infos, n - 1), HashTotal(infos, j), mbn, infos[j].offset, infos[j].filesz)
    ensures CopiedFrom(HashStream(mbn, infos, n), HashTotal(infos, j), mbn, infos[j].offset, infos[j].filesz)
  {
    assert SegmentReadable(mbn, infos[n - 1]);
    var head := HashStream(mbn, infos, n - 1);
    var last := SegmentOutput(mbn, infos[n - 1]);
    assert HashStream(mbn, infos, n) == head + last;
    CopiedFromBefore(HashStream(mbn, infos, n), head, last, HashTotal(infos, j), mbn, infos[j].offset, infos[j].filesz);
  }

  /** A non-empty hash segment n - 1 lands right after the hash segments
      before it. */
  lemma HashStreamLastSegment(mbn: seq<byte>, infos: seq<PhdrInfo>, n: nat)
    requires 0 < n <= |infos| && SegmentsReadable(mbn, infos, n) && SegmentsReadable(mbn, infos, n - 1)
    requires infos[n - 1].filesz > 0 && IsPilHashSegment(infos[n - 1].flags)
    ensures CopiedFrom(HashStream(mbn, infos, n), HashTotal(infos, n - 1), mbn, infos[n - 1].offset, infos[n - 1].filesz)
  {
    var info := infos[n - 1];
    assert SegmentReadable(mbn, info);
    var head := HashStream(mbn, infos, n - 1);
    var segment := SegmentBytes(mbn, info);
    assert HashStream(mbn, infos, n) == head + segment;
    HashStreamLength(mbn, infos, n - 1);
    CopiedAppended(HashStream(mbn, infos, n), head, HashTotal(infos, n - 1), mbn, info.offset, info.filesz);
  }

  /** The hash stream is as long as all hash segments together, and
      non-empty hash segment j sits in it, whole, at the total size of the
      hash segments before it. */
  lemma HashStreamLayout(mbn: seq<byte>, infos: seq<PhdrInfo>, j: nat)
    requires SegmentsReadable(mbn, infos, |infos|)
    requires j < |infos| && infos[j].filesz > 0 && IsPilHashSegment(infos[j].flags)
    ensures |HashStream(mbn, infos, |infos|)| == HashTotal(infos, |infos|)
    ensures CopiedFrom(HashStream(mbn, infos, |infos|), HashTotal(infos, j), mbn, infos[j].offset, infos[j].filesz)
  {
    HashStreamLength(mbn, infos, |infos|);
    HashStreamSegment(mbn, infos, |infos|, j);
  }

  /** The segment files are exactly those of the non-empty segments, and
      each holds its segment's bytes. */
  lemma {:induction false} SegmentFilesContents(mbn: seq<byte>, infos: seq<PhdrInfo>, n: nat)
    requires n <= |infos| && SegmentsReadable(mbn, infos, n)
    ensures forall j: nat :: j in SegmentFiles(mbn, infos, n) <==> j < n && infos[j].filesz > 0
    ensures forall j: nat :: j in SegmentFiles(mbn, infos, n) ==>
      infos[j].offset + infos[j].filesz <= |mbn| && SegmentFiles(mbn, infos, n)[j] == SegmentBytes(mbn, infos[j])
    decreases n
  {
    if n > 0 {
      SegmentFilesContents(mbn, infos, n - 1);
    }
  }

  /** A split succeeds exactly when the path has the .mdt extension, the
      image is identified, its header and table are read and every
      non-empty segment lies inside the image. The path is checked before
      anything else, and an image that is identified can only fail by a
      short read. */
  lemma SplitSucceedsExactly(mbn: seq<byte>, mdtPath: string)
    ensures !HasMdtExtension(mdtPath) ==> SplitOutcome(mbn, mdtPath) == Err(NotMdtFile)
    ensures HasMdtExtension(mdtPath) && DetectElfFormat(mbn).Err? ==>
      SplitOutcome(mbn, mdtPath) == Err(DetectElfFormat(mbn).error)
    ensures HasMdtExtension(mdtPath) && DetectElfFormat(mbn).Ok? ==>
      var format := DetectElfFormat(mbn).value;
      && SplitOutcome(mbn, mdtPath) == SplitElf(mbn, format.elfClass, format.isLittleEndian)
      && (SplitOutcome(mbn, mdtPath).Ok? <==>
            && ReadElfImage(mbn, format.elfClass, format.isLittleEndian).Ok?
            && var infos := ImageInfos(mbn, format.elfClass, format.isLittleEndian);
               SegmentsReadable(mbn, infos, |infos|))
      && (SplitOutcome(mbn, mdtPath).Err? ==> SplitOutcome(mbn, mdtPath).error == ShortRead)
  {
  }

  /** The .mdt of a successful split holds the image's header and each of
      its program headers at the offsets they have in the image, and is as
      long as the header region plus all hash segments. */
  lemma SplitMdtHeader(mbn: seq<byte>, c: ElfClass, fileLittleEndian: bool)
    requires SplitElf(mbn, c, fileLittleEndian).Ok?
    ensures ReadElfImage(mbn, c, fileLittleEndian).Ok?
    ensures var img := ReadElfImage(mbn, c, fileLittleEndian).value;
      var mdt := SplitElf(mbn, c, fileLittleEndian).value.mdt;
      var size := SizeOf(c, ProgramHeader);
      var infos := ImageInfos(mbn, c, fileLittleEndian);
      && |mdt| == |HeaderRegion(img, c)| + HashTotal(infos, |infos|)
      && AgreesOn(mdt, mbn, 0, SizeOf(c, ElfHeader))
      && (forall i :: 0 <= i < |img.phdrs| ==> AgreesOn(mdt, mbn, img.phoff + i * size, img.phoff + i * size + size))
  {
    var img := ReadElfImage(mbn, c, fileLittleEndian).value;
    var infos := ImageInfos(mbn, c, fileLittleEndian);
    var region := HeaderRegion(img, c);
    var stream := HashStream(mbn, infos, |infos|);
    HashStreamLength(mbn, infos, |infos|);
    HeaderRegionFromSource(mbn, c, fileLittleEndian);
    AgreesOnAppend(region, stream, mbn, 0, SizeOf(c, ElfHeader));
    var size := SizeOf(c, ProgramHeader);
    forall i | 0 <= i < |img.phdrs|
      ensures AgreesOn(region + stream, mbn, img.phoff + i * size, img.phoff + i * size + size)
    {
      AgreesOnAppend(region, stream, mbn, img.phoff + i * size, img.phoff + i * size + size);
    }
  }

  lemma AgreesOnAppend(f: seq<byte>, tail: seq<byte>, src: seq<byte>, lo: int, hi: int)
    requires AgreesOn(f, src, lo, hi)
    ensures AgreesOn(f + tail, src, lo, hi)
  {
    forall k | lo <= k < hi ensures Agrees(f + tail, src, k) {
      assert Agrees(f, src, k);
    }
  }

  /** Segment file j, for a non-empty segment j among the first `n`, holds
      that segment's bytes. */
  lemma {:induction false} SegmentFilesAt(mbn: seq<byte>, infos: seq<PhdrInfo>, n: nat, j: nat)
    requires n <= |infos| && SegmentsReadable(mbn, infos, n)
    requires j < n && infos[j].filesz > 0
    ensures infos[j].offset + infos[j].filesz <= |mbn|
    ensures j in SegmentFiles(mbn, infos, n) && SegmentFiles(mbn, infos, n)[j] == SegmentBytes(mbn, infos[j])
    decreases n
  {
    assert SegmentReadable(mbn, infos[j]);
    assert SegmentsReadable(mbn, infos, n - 1);
    if j < n - 1 {
      SegmentFilesAt(mbn, infos, n - 1, j);
    }
  }

  /** A successful split reads the image and every segment, and its output
      is the header region followed by the hash stream, with the segment
      files of all segments. */
  lemma SplitElfOk(mbn: seq<byte>, c: ElfClass, fileLittleEndian: bool,
                    out: SplitOutput, img: ElfImage, infos: seq<PhdrInfo>)
    requires SplitElf(mbn, c, fileLittleEndian) == Ok(out)
    requires ReadElfImage(mbn, c, fileLittleEndian) == Ok(img)
    requires infos == Infos(img, c, fileLittleEndian)
    ensures && SegmentsReadable(mbn, infos, |infos|)
      && out.mdt == HeaderRegion(img, c) + HashStream(mbn, infos, |infos|)
      && out.segmentFiles == SegmentFiles(mbn, infos, |infos|)
  {
  }

  /** In a .mdt made of a header region and the hash stream, non-empty hash
      segment j follows the region at the total size of the hash segments
      before it. */
  lemma HashSegmentAfterRegion(mdt: seq<byte>, region: seq<byte>, mbn: seq<byte>, infos: seq<PhdrInfo>, j: nat)
    requires SegmentsReadable(mbn, infos, |infos|)
    requires j < |infos| && infos[j].filesz > 0 && IsPilHashSegment(infos[j].flags)
    requires mdt == region + HashStream(mbn, infos, |infos|)
    ensures CopiedFrom(mdt, |region| + HashTotal(infos, j), mbn, infos[j].offset, infos[j].filesz)
  {
    var stream := HashStream(mbn, infos, |infos|);
    var at := HashTotal(infos, j);
    HashStreamLayout(mbn, infos, j);
    CopiedFromAfter(mdt, region, stream, at, |region| + at, mbn, infos[j].offset, infos[j].filesz);
  }

  /** Appending segment i's output to the .mdt extends its hash stream by
      segment i. */
  lemma StreamStep(mbn: seq<byte>, infos: seq<PhdrInfo>, i: nat, region: seq<byte>, before: seq<byte>, after: seq<byte>)
    requires i < |infos| && SegmentsReadable(mbn, infos, i + 1)
    requires before == region + HashStream(mbn, infos, i)
    requires after == before + SegmentOutput(mbn, infos[i])
    ensures after == region + HashStream(mbn, infos, i + 1)
  {
    assert SegmentReadable(mbn, infos[i]);
    AppendAssoc(region, HashStream(mbn, infos, i), SegmentOutput(mbn, infos[i]));
  }

  lemma AppendAssoc<T>(a: seq<T>, b: seq<T>, c: seq<T>)
    ensures (a + b) + c == a + (b + c)
  {
  }

  /** Bytes copied into `f` are still there, shifted, once `f` follows `prefix`. */
  lemma CopiedFromAfter(g: seq<byte>, prefix: seq<byte>, f: seq<byte>, at: int, shifted: int, src: seq<byte>, from: int, len: int)
    requires CopiedFrom(f, at, src, from, len)
    requires g == prefix + f && shifted == |prefix| + at
    ensures CopiedFrom(g, shifted, src, from, len)
  {
    SliceOfAppend(prefix, f, at, len);
  }

  /** Bytes copied into `f` are still there once something follows `f`. */
  lemma CopiedFromBefore(g: seq<byte>, f: seq<byte>, suffix: seq<byte>, at: int, src: seq<byte>, from: int, len: int)
    requires CopiedFrom(f, at, src, from, len)
    requires g == f + suffix
    ensures CopiedFrom(g, at, src, from, len)
  {
    SliceOfAppendLeft(f, suffix, at, at + len);
  }

  /** Bytes `from` to `from + len` of `src`, appended to `prefix`, sit at
      `|prefix|`. */
  lemma CopiedAppended(f: seq<byte>, prefix: seq<byte>, at: int, src: seq<byte>, from: nat, len: nat)
    requires from + len <= |src|
    requires f == prefix + src[from..from + len] && at == |prefix|
    ensures CopiedFrom(f, at, src, from, len)
  {
    assert f[at..at + len] == src[from..from + len];
  }

  lemma SliceOfAppendLeft<T>(a: seq<T>, b: seq<T>, lo: nat, hi: nat)
    requires lo <= hi <= |a|
    ensures (a + b)[lo..hi] == a[lo..hi]
  {
  }

  lemma SliceOfAppend<T>(a: seq<T>, b: seq<T>, lo: nat, len: nat)
    requires lo + len <= |b|
    ensures (a + b)[|a| + lo..|a| + lo + len] == b[lo..lo + len]
  {
  }

  /** A successful split writes a segment file exactly for every non-empty
      segment, keyed by its program header index and holding that segment's
      bytes of the image; hash segments get one too. */
  lemma SplitSegmentFiles(mbn: seq<byte>, c: ElfClass, fileLittleEndian: bool)
    requires SplitElf(mbn, c, fileLittleEndian).Ok?
    ensures ReadElfImage(mbn, c, fileLittleEndian).Ok?
    ensures var infos := ImageInfos(mbn, c, fileLittleEndian);
      var files := SplitElf(mbn, c, fileLittleEndian).value.segmentFiles;
      && (forall j: nat :: j in files <==> j < |infos| && infos[j].filesz > 0)
      && (forall j: nat :: j in files ==>
            infos[j].offset + infos[j].filesz <= |mbn| && files[j] == mbn[infos[j].offset..infos[j].offset + infos[j].filesz])
  {
    var infos := ImageInfos(mbn, c, fileLittleEndian);
    SegmentFilesContents(mbn, infos, |infos|);
  }

  /** A non-empty segment that runs past the end of the image makes the
      split fail with a short read. */
  lemma SplitFailsOnTruncatedSegment(mbn: seq<byte>, c: ElfClass, fileLittleEndian: bool, j: nat)
    requires ReadElfImage(mbn, c, fileLittleEndian).Ok?
    requires var infos := ImageInfos(mbn, c, fileLittleEndian);
      j < |infos| && infos[j].filesz > 0 && infos[j].offset + infos[j].filesz > |mbn|
    ensures SplitElf(mbn, c, fileLittleEndian) == Err(ShortRead)
  {
  }
}
