/**
 The squasher: rebuilds a PIL image (.mbn) from its metadata file (.mdt)
 and its segment files (.bNN).

 The header and the program header table are read from the .mdt and
 written at the offsets they name. Then every non-empty segment is read
 and written at its `p_offset`: a hash segment from the .mdt, at a cursor
 that starts at the `p_filesz` of program header 0 and moves past each hash
 segment read; any other segment from the start of its own .bNN file. The
 segment files are a map from the program header index (the NN of .bNN) to
 their contents; an index with no entry is a file that does not exist.
 */
module PilSquasher {
  import opened PilCommon

  /* ---------------------------------------------------------------------- */
  /* Reading the data of one segment                                        */
  /* ---------------------------------------------------------------------- */

  /** The bytes read for a segment, and the hash cursor after the read. */
  datatype SegmentRead = SegmentRead(data: seq<byte>, cursor: nat)

  /** read_segment_data: a hash segment is the `filesz` bytes of the .mdt at
      the cursor, which then moves past them; any other segment is the first
      `filesz` bytes of its .bNN file, which must exist, and the cursor stays. */
  function FetchSegment(mdt: seq<byte>, files: map<nat, seq<byte>>, index: nat, filesz: nat,
                        isHash: bool, cursor: nat): (r: Result<SegmentRead>)
    ensures r.Ok? ==> |r.value.data| == filesz
    ensures isHash ==>
      && (r.Ok? <==> filesz == 0 || cursor + filesz <= |mdt|)
      && (r.Ok? ==> r.value.cursor == cursor + filesz)
      && (r.Ok? && filesz > 0 ==> r.value.data == mdt[cursor..cursor + filesz])
    ensures !isHash ==>
      && (r.Ok? <==> index in files && filesz <= |files[index]|)
      && (r.Ok? ==> r.value == SegmentRead(files[index][..filesz], cursor))
    ensures r.Err? ==> r.error == if !isHash && index !in files then MissingSegmentFile else ShortRead
  {
    if isHash then
      match ReadFileAt(mdt, cursor, filesz)
      case Err(e) => Err(e)
      case Ok(data) => Ok(SegmentRead(data, cursor + filesz))
    else if index !in files then Err(MissingSegmentFile)
    else
      match ReadFileAt(files[index], 0, filesz)
      case Err(e) => Err(e)
      case Ok(data) =>
        assert data == files[index][..filesz];
        Ok(SegmentRead(data, cursor))
  }

  /** read_segment_data as the program runs it, with the hash cursor passed
      in and handed back. */
  method ReadSegmentData(mdt: seq<byte>, files: map<nat, seq<byte>>, index: nat, filesz: nat,
                         isHash: bool, hashOffset: nat)
    returns (r: Result<seq<byte>>, nextHashOffset: nat)
    ensures var expected := FetchSegment(mdt, files, index, filesz, isHash, hashOffset);
      && (r.Ok? <==> expected.Ok?)
      && (r.Ok? ==> expected.value == SegmentRead(r.value, nextHashOffset))
      && (r.Err? ==> expected == Err(r.error))
  {
    nextHashOffset := hashOffset;
    if isHash {
      r := ReadFileAt(mdt, hashOffset, filesz);
      if r.Ok? {
        nextHashOffset := hashOffset + filesz;
      }
      return;
    }
    if index !in files {
      return Err(MissingSegmentFile), nextHashOffset;
    }
    var bxx := files[index];
    r := ReadFileAt(bxx, 0, filesz);
  }

  /* ---------------------------------------------------------------------- */
  /* The segment loop                                                       */
  /* ---------------------------------------------------------------------- */

  /** The image written so far, and the hash cursor. */
  datatype Progress = Progress(out: seq<byte>, cursor: nat)

  /** One turn of the segment loop, for segment `index`: an empty segment
      is skipped; otherwise its data is read and written at its offset. */
  function SegmentSquashed(mdt: seq<byte>, files: map<nat, seq<byte>>, index: nat, info: PhdrInfo,
                           st: Progress): Result<Progress>
  {
    if info.filesz == 0 then Ok(st)
    else
      match FetchSegment(mdt, files, index, info.filesz, IsPilHashSegment(info.flags), st.cursor)
      case Err(e) => Err(e)
      case Ok(read) => Ok(Progress(Overwrite(st.out, info.offset, read.data), read.cursor))
  }

  /** The first `n` turns of the segment loop from `start`; the first
      failure ends it. */
  function SegmentsSquashed(mdt: seq<byte>, files: map<nat, seq<byte>>, infos: seq<PhdrInfo>, n: nat,
                            start: Progress): Result<Progress>
    requires n <= |infos|
  {
    if n == 0 then Ok(start)
    else
      match SegmentsSquashed(mdt, files, infos, n - 1, start)
      case Err(e) => Err(e)
      case Ok(st) => SegmentSquashed(mdt, files, n - 1, infos[n - 1], st)
  }

  /** Segment `index` can be read with the cursor at `cursor`: it is
      empty, or it is a hash segment that the .mdt holds whole at the
      cursor, or its .bNN file exists and is long enough. */
  predicate SegmentAvailable(mdt: seq<byte>, files: map<nat, seq<byte>>, index: nat, info: PhdrInfo, cursor: nat)
  {
    info.filesz > 0 ==>
      if IsPilHashSegment(info.flags) then cursor + info.filesz <= |mdt|
      else index in files && info.filesz <= |files[index]|
  }

  /** Each of the first `n` segments can be read with the cursor past the
      hash segments before it, the cursor starting at `base`. */
  predicate SegmentsAvailable(mdt: seq<byte>, files: map<nat, seq<byte>>, infos: seq<PhdrInfo>, n: nat, base: nat)
    requires n <= |infos|
  {
    n > 0 ==> SegmentsAvailable(mdt, files, infos, n - 1, base)
              && SegmentAvailable(mdt, files, n - 1, infos[n - 1], base + HashTotal(infos, n - 1))
  }

  /** Byte k lies inside the (non-empty) segment `info`. */
  predicate WrittenBy(info: PhdrInfo, k: int)
  {
    info.filesz > 0 && info.offset <= k < info.offset + info.filesz
  }

  /* ---------------------------------------------------------------------- */
  /* The whole squash                                                       */
  /* ---------------------------------------------------------------------- */

  /** The header of the .mdt, when it reads, names at least one program
      header: squash_impl starts the hash cursor at program header 0. */
  predicate PhnumPositive(mdt: seq<byte>, c: ElfClass, fileLittleEndian: bool)
  {
    ReadElfHeader(mdt, c).Ok? ==> Phnum(ReadElfHeader(mdt, c).value, c, fileLittleEndian) >= 1
  }

  /** ... for the class and byte order the .mdt identifies itself with. */
  predicate HasProgramHeaders(mdt: seq<byte>)
  {
    DetectElfFormat(mdt).Ok? ==>
      PhnumPositive(mdt, DetectElfFormat(mdt).value.elfClass, DetectElfFormat(mdt).value.isLittleEndian)
  }

  /** The image squashed from a .mdt of class `c` and byte order
      `fileLittleEndian`: its header region, then every segment in table
      order, with the hash cursor starting at the `p_filesz` of program
      header 0. */
  function SquashElf(mdt: seq<byte>, files: map<nat, seq<byte>>, c: ElfClass, fileLittleEndian: bool): Result<seq<byte>>
    requires PhnumPositive(mdt, c, fileLittleEndian)
  {
    match ReadElfImage(mdt, c, fileLittleEndian)
    case Err(e) => Err(e)
    case Ok(img) =>
      var infos := Infos(img, c, fileLittleEndian);
      assert |infos| >= 1;
      match SegmentsSquashed(mdt, files, infos, |infos|, Progress(HeaderRegion(img, c), infos[0].filesz))
      case Err(e) => Err(e)
      case Ok(st) => Ok(st.out)
  }

  /** The outcome of `squash`: the metadata path is checked first, then the
      .mdt is identified and squashed according to its class and byte order. */
  function SquashOutcome(mdtPath: string, mdt: seq<byte>, files: map<nat, seq<byte>>): Result<seq<byte>>
    requires HasMdtExtension(mdtPath) ==> HasProgramHeaders(mdt)
  {
    if !HasMdtExtension(mdtPath) then Err(NotMdtFile)
    else
      match DetectElfFormat(mdt)
      case Err(e) => Err(e)
      case Ok(format) => SquashElf(mdt, files, format.elfClass, format.isLittleEndian)
  }

  /* ---------------------------------------------------------------------- */
  /* The squasher as the program runs it                                    */
  /* ---------------------------------------------------------------------- */

  /** squash_impl: reads the header and the table from the .mdt, writes them
      to the image, then handles the segments in table order. */
  method SquashImpl(mdt: seq<byte>, files: map<nat, seq<byte>>, mbn: OutFile, c: ElfClass,
                    fileLittleEndian: bool, hostLittleEndian: bool)
    returns (r: Result<()>)
    requires mbn.contents == [] && PhnumPositive(mdt, c, fileLittleEndian)
    modifies mbn
    ensures r.Ok? ==> SquashElf(mdt, files, c, fileLittleEndian) == Ok(mbn.contents)
    ensures r.Err? ==> SquashElf(mdt, files, c, fileLittleEndian) == Err(r.error)
  {
    var header := ReadElfHeader(mdt, c);
    if header.Err? {
      return Err(header.error);
    }
    var ehdr := header.value;
    var table := ReadProgramHeaders(mdt, ehdr, c, fileLittleEndian, hostLittleEndian);
    if table.Err? {
      return Err(table.error);
    }
    var phdrs := table.value;
    var phoff := ReadPhoff(ehdr, c, fileLittleEndian, hostLittleEndian);
    ghost var img := ElfImage(ehdr, phoff, phdrs);
    assert ReadElfImage(mdt, c, fileLittleEndian) == Ok(img);

    WriteHeaderAndTable(mbn, ehdr, phoff, phdrs, SizeOf(c, ProgramHeader));
    assert mbn.contents == HeaderRegion(img, c);

    ghost var infos := Infos(img, c, fileLittleEndian);
    InfosAt(img, c, fileLittleEndian);
    assert infos[0] == PhdrFields(phdrs[0], c, fileLittleEndian);
    var first := GetPhdrInfo(phdrs[0], c, fileLittleEndian, hostLittleEndian);
    r := SquashSegments(mdt, files, mbn, phdrs, c, fileLittleEndian, hostLittleEndian, infos, first.filesz);
  }

  /** The segment loop of squash_impl, from the hash cursor `hashOffset`. */
  method SquashSegments(mdt: seq<byte>, files: map<nat, seq<byte>>, mbn: OutFile, phdrs: seq<seq<byte>>,
                        c: ElfClass, fileLittleEndian: bool, hostLittleEndian: bool,
                        ghost infos: seq<PhdrInfo>, hashOffset: nat)
    returns (r: Result<()>)
    requires DecodedFrom(infos, phdrs, c, fileLittleEndian)
    modifies mbn
    ensures var expected := SegmentsSquashed(mdt, files, infos, |infos|, Progress(old(mbn.contents), hashOffset));
      && (r.Ok? <==> expected.Ok?)
      && (r.Ok? ==> expected.value.out == mbn.contents)
      && (r.Err? ==> expected == Err(r.error))
  {
    ghost var start := Progress(mbn.contents, hashOffset);
    var cursor := hashOffset;
    var i := 0;
    while i < |phdrs|
      invariant i <= |phdrs|
      invariant SegmentsSquashed(mdt, files, infos, i, start) == Ok(Progress(mbn.contents, cursor))
    {
      assert infos[i] == PhdrFields(phdrs[i], c, fileLittleEndian);
      var step := SquashSegment(mdt, files, mbn, phdrs[i], i, cursor, c, fileLittleEndian, hostLittleEndian, infos[i]);
      if step.Err? {
        SquashFailsBeyond(mdt, files, infos, i + 1, |infos|, start);
        return Err(step.error);
      }
      cursor := step.value;
      i := i + 1;
    }
    return Ok(());
  }

  /** One turn of the segment loop of squash_impl, for segment `index`:
      an empty segment is skipped; otherwise its data is read and written
      at its `p_offset`. On success the new hash cursor is returned. */
  method SquashSegment(mdt: seq<byte>, files: map<nat, seq<byte>>, mbn: OutFile, phdr: seq<byte>, index: nat,
                       hashOffset: nat, c: ElfClass, fileLittleEndian: bool, hostLittleEndian: bool,
                       ghost info: PhdrInfo)
    returns (r: Result<nat>)
    requires |phdr| == SizeOf(c, ProgramHeader) && info == PhdrFields(phdr, c, fileLittleEndian)
    modifies mbn
    ensures var expected := SegmentSquashed(mdt, files, index, info, Progress(old(mbn.contents), hashOffset));
      && (r.Ok? <==> expected.Ok?)
      && (r.Ok? ==> expected.value == Progress(mbn.contents, r.value))
      && (r.Err? ==> expected == Err(r.error))
  {
    var decoded := GetPhdrInfo(phdr, c, fileLittleEndian, hostLittleEndian);
    if decoded.filesz == 0 {
      return Ok(hashOffset);
    }
    var segment, next := ReadSegmentData(mdt, files, index, decoded.filesz, IsPilHashSegment(decoded.flags), hashOffset);
    if segment.Err? {
      return Err(segment.error);
    }
    WriteFileAt(mbn, decoded.offset, segment.value);
    return Ok(next);
  }

  /** squash: checks the metadata path, creates the image, identifies the
      .mdt and dispatches on its class. */
  method Squash(mdtPath: string, mdt: seq<byte>, files: map<nat, seq<byte>>, hostLittleEndian: bool)
    returns (r: Result<seq<byte>>)
    requires HasMdtExtension(mdtPath) ==> HasProgramHeaders(mdt)
    ensures r == SquashOutcome(mdtPath, mdt, files)
  {
    if !HasMdtExtension(mdtPath) {
      return Err(NotMdtFile);
    }
    var mbn := new OutFile();
    var format := DetectElfFormat(mdt);
    if format.Err? {
      return Err(format.error);
    }
    var done := SquashImpl(mdt, files, mbn, format.value.elfClass, format.value.isLittleEndian, hostLittleEndian);
    if done.Err? {
      return Err(done.error);
    }
    return Ok(mbn.contents);
  }

  /* ---------------------------------------------------------------------- */
  /* What the segment loop does                                             */
  /* ---------------------------------------------------------------------- */

  /** Turn n - 1 continues from where the first n - 1 turns left off. */
  lemma SquashNextTurn(mdt: seq<byte>, files: map<nat, seq<byte>>, infos: seq<PhdrInfo>, n: nat, start: Progress, st: Progress)
    requires 0 < n <= |infos| && SegmentsSquashed(mdt, files, infos, n - 1, start) == Ok(st)
    ensures SegmentsSquashed(mdt, files, infos, n, start) == SegmentSquashed(mdt, files, n - 1, infos[n - 1], st)
  {
  }

  /** Once a turn fails, the loop's outcome is that failure. */
  lemma {:induction false} SquashFailsBeyond(mdt: seq<byte>, files: map<nat, seq<byte>>, infos: seq<PhdrInfo>,
                                             m: nat, n: nat, start: Progress)
    requires m <= n <= |infos| && SegmentsSquashed(mdt, files, infos, m, start).Err?
    ensures SegmentsSquashed(mdt, files, infos, n, start) == SegmentsSquashed(mdt, files, infos, m, start)
    decreases n
  {
    if m < n {
      SquashFailsBeyond(mdt, files, infos, m, n - 1, start);
    }
  }

  /** After the first `n` segments the hash cursor has moved past exactly
      the hash segments among them: it is the start plus their sizes. */
  lemma {:induction false} SquashCursor(mdt: seq<byte>, files: map<nat, seq<byte>>, infos: seq<PhdrInfo>,
                                        n: nat, start: Progress)
    requires n <= |infos| && SegmentsSquashed(mdt, files, infos, n, start).Ok?
    ensures SegmentsSquashed(mdt, files, infos, n, start).value.cursor == start.cursor + HashTotal(infos, n)
    decreases n
  {
    if n > 0 {
      assert SegmentsSquashed(mdt, files, infos, n - 1, start).Ok?;
      SquashCursor(mdt, files, infos, n - 1, start);
    }
  }

  /** The hash cursor never moves back: a loop that gets through `n`
      segments got through every `m <= n`, with the cursor no further on. */
  lemma SquashCursorNeverDecreases(mdt: seq<byte>, files: map<nat, seq<byte>>, infos: seq<PhdrInfo>,
                                   m: nat, n: nat, start: Progress)
    requires m <= n <= |infos| && SegmentsSquashed(mdt, files, infos, n, start).Ok?
    ensures SegmentsSquashed(mdt, files, infos, m, start).Ok?
    ensures start.cursor <= SegmentsSquashed(mdt, files, infos, m, start).value.cursor
                         <= SegmentsSquashed(mdt, files, infos, n, start).value.cursor
  {
    if SegmentsSquashed(mdt, files, infos, m, start).Err? {
      SquashFailsBeyond(mdt, files, infos, m, n, start);
    }
    SquashCursor(mdt, files, infos, m, start);
    SquashCursor(mdt, files, infos, n, start);
    HashTotalMonotone(infos, m, n);
  }

  /** One turn succeeds exactly when its segment can be read; a failing
      turn reports a missing .bNN file, else a short read. */
  lemma SegmentSquashedOutcome(mdt: seq<byte>, files: map<nat, seq<byte>>, index: nat, info: PhdrInfo, st: Progress)
    ensures SegmentSquashed(mdt, files, index, info, st).Ok? <==> SegmentAvailable(mdt, files, index, info, st.cursor)
    ensures SegmentSquashed(mdt, files, index, info, st).Err? ==>
      SegmentSquashed(mdt, files, index, info, st).error ==
        if !IsPilHashSegment(info.flags) && index !in files then MissingSegmentFile else ShortRead
  {
  }

  /** The loop gets through the first `n` segments exactly when each of
      them can be read with the cursor past the hash segments before it. */
  lemma {:induction false} SquashSucceedsWhenAvailable(mdt: seq<byte>, files: map<nat, seq<byte>>, infos: seq<PhdrInfo>,
                                                       n: nat, start: Progress)
    requires n <= |infos|
    ensures SegmentsSquashed(mdt, files, infos, n, start).Ok? <==> SegmentsAvailable(mdt, files, infos, n, start.cursor)
    decreases n
  {
    if n > 0 {
      SquashSucceedsWhenAvailable(mdt, files, infos, n - 1, start);
      var prev := SegmentsSquashed(mdt, files, infos, n - 1, start);
      var cursor := start.cursor + HashTotal(infos, n - 1);
      var last := SegmentAvailable(mdt, files, n - 1, infos[n - 1], cursor);
      if prev.Ok? {
        SquashCursor(mdt, files, infos, n - 1, start);
        SegmentSquashedOutcome(mdt, files, n - 1, infos[n - 1], prev.value);
      }
    }
  }

  /** The first segment that cannot be read decides the outcome: a missing
      .bNN file, else a short read. */
  lemma SquashFirstFailure(mdt: seq<byte>, files: map<nat, seq<byte>>, infos: seq<PhdrInfo>,
                           n: nat, start: Progress, j: nat)
    requires j < n <= |infos|
    requires SegmentsAvailable(mdt, files, infos, j, start.cursor)
    requires !SegmentAvailable(mdt, files, j, infos[j], start.cursor + HashTotal(infos, j))
    ensures SegmentsSquashed(mdt, files, infos, n, start) ==
      Err(if !IsPilHashSegment(infos[j].flags) && j !in files then MissingSegmentFile else ShortRead)
  {
    SquashSucceedsWhenAvailable(mdt, files, infos, j, start);
    var prev := SegmentsSquashed(mdt, files, infos, j, start).value;
    SquashCursor(mdt, files, infos, j, start);
    SegmentSquashedFails(mdt, files, j, infos[j], prev);
    SquashNextTurn(mdt, files, infos, j + 1, start, prev);
    SquashFailsBeyond(mdt, files, infos, j + 1, n, start);
  }

  /** A turn whose segment cannot be read fails, naming the missing file
      or the short read. */
  lemma SegmentSquashedFails(mdt: seq<byte>, files: map<nat, seq<byte>>, index: nat, info: PhdrInfo, st: Progress)
    requires !SegmentAvailable(mdt, files, index, info, st.cursor)
    ensures SegmentSquashed(mdt, files, index, info, st) ==
      Err(if !IsPilHashSegment(info.flags) && index !in files then MissingSegmentFile else ShortRead)
  {
    SegmentSquashedOutcome(mdt, files, index, info, st);
  }

  /** A non-empty segment that is not a hash segment and has no .bNN file
      makes the loop fail. */
  lemma SquashFailsOnMissingFile(mdt: seq<byte>, files: map<nat, seq<byte>>, infos: seq<PhdrInfo>,
                                 n: nat, start: Progress, j: nat)
    requires j < n <= |infos|
    requires infos[j].filesz > 0 && !IsPilHashSegment(infos[j].flags) && j !in files
    ensures SegmentsSquashed(mdt, files, infos, n, start).Err?
    ensures SegmentsAvailable(mdt, files, infos, j, start.cursor) ==>
      SegmentsSquashed(mdt, files, infos, n, start) == Err(MissingSegmentFile)
  {
    if SegmentsAvailable(mdt, files, infos, j, start.cursor) {
      SquashFirstFailure(mdt, files, infos, n, start, j);
    } else {
      SquashSucceedsWhenAvailable(mdt, files, infos, j, start);
      SquashFailsBeyond(mdt, files, infos, j, n, start);
    }
  }

  /** Segment `index` reads the same .bNN file from `files` and `other`, or
      reads none: it is empty or a hash segment. */
  predicate SameNeededFile(files: map<nat, seq<byte>>, other: map<nat, seq<byte>>, index: nat, info: PhdrInfo)
  {
    info.filesz > 0 && !IsPilHashSegment(info.flags) ==>
      (index in files <==> index in other) && (index in files ==> files[index] == other[index])
  }

  /** The first `n` segments read the same segment files from `files` and
      `other`. */
  predicate SameNeededFiles(files: map<nat, seq<byte>>, other: map<nat, seq<byte>>, infos: seq<PhdrInfo>, n: nat)
    requires n <= |infos|
  {
    forall i :: 0 <= i < n ==> SameNeededFile(files, other, i, infos[i])
  }

  /** Empty segments and hash segments never look at their .bNN file: the
      loop's outcome depends on the other segment files only. */
  lemma {:induction false} SquashReadsOnlyNeededFiles(mdt: seq<byte>, files: map<nat, seq<byte>>, other: map<nat, seq<byte>>,
                                                      infos: seq<PhdrInfo>, n: nat, start: Progress)
    requires n <= |infos| && SameNeededFiles(files, other, infos, n)
    ensures SegmentsSquashed(mdt, files, infos, n, start) == SegmentsSquashed(mdt, other, infos, n, start)
    decreases n
  {
    if n > 0 {
      assert SameNeededFiles(files, other, infos, n - 1);
      SquashReadsOnlyNeededFiles(mdt, files, other, infos, n - 1, start);
      var prev := SegmentsSquashed(mdt, files, infos, n - 1, start);
      if prev.Ok? {
        assert SameNeededFile(files, other, n - 1, infos[n - 1]);
        SegmentSquashedSameFile(mdt, files, other, n - 1, infos[n - 1], prev.value);
        SquashNextTurn(mdt, files, infos, n, start, prev.value);
        SquashNextTurn(mdt, other, infos, n, start, prev.value);
      }
    }
  }

  lemma SegmentSquashedSameFile(mdt: seq<byte>, files: map<nat, seq<byte>>, other: map<nat, seq<byte>>,
                                index: nat, info: PhdrInfo, st: Progress)
    requires SameNeededFile(files, other, index, info)
    ensures SegmentSquashed(mdt, files, index, info, st) == SegmentSquashed(mdt, other, index, info, st)
  {
  }

  lemma OverwriteOutside(f: seq<byte>, offset: nat, data: seq<byte>, k: nat)
    requires k < |f| && (k < offset || offset + |data| <= k)
    ensures var g := Overwrite(f, offset, data);
      k < |g| && g[k] == f[k]
  {
    OverwriteBytes(f, offset, data);
  }

  /** A byte that no segment covers keeps the value it had before the
      segments were written. */
  lemma {:induction false} SquashKeepsUnwritten(mdt: seq<byte>, files: map<nat, seq<byte>>, infos: seq<PhdrInfo>,
                                                n: nat, start: Progress, k: nat)
    requires n <= |infos| && SegmentsSquashed(mdt, files, infos, n, start).Ok?
    requires k < |start.out| && forall i :: 0 <= i < n ==> !WrittenBy(infos[i], k)
    ensures var out := SegmentsSquashed(mdt, files, infos, n, start).value.out;
      k < |out| && out[k] == start.out[k]
    decreases n
  {
    if n > 0 {
      var prev := SegmentsSquashed(mdt, files, infos, n - 1, start);
      assert prev.Ok?;
      SquashKeepsUnwritten(mdt, files, infos, n - 1, start, k);
      assert !WrittenBy(infos[n - 1], k);
      SquashNextTurn(mdt, files, infos, n, start, prev.value);
      SegmentSquashedKeeps(mdt, files, n - 1, infos[n - 1], prev.value, k);
    }
  }

  /** A byte that no segment covers and that lies past the end of the
      image the segments were written into is zero. */
  lemma {:induction false} SquashGapIsZero(mdt: seq<byte>, files: map<nat, seq<byte>>, infos: seq<PhdrInfo>,
                                           n: nat, start: Progress, k: nat)
    requires n <= |infos| && SegmentsSquashed(mdt, files, infos, n, start).Ok?
    requires |start.out| <= k < |SegmentsSquashed(mdt, files, infos, n, start).value.out|
    requires forall i :: 0 <= i < n ==> !WrittenBy(infos[i], k)
    ensures SegmentsSquashed(mdt, files, infos, n, start).value.out[k] == 0
    decreases n
  {
    if n > 0 {
      var prev := SegmentsSquashed(mdt, files, infos, n - 1, start);
      assert prev.Ok?;
      SquashNextTurn(mdt, files, infos, n, start, prev.value);
      assert !WrittenBy(infos[n - 1], k);
      if k < |prev.value.out| {
        SquashGapIsZero(mdt, files, infos, n - 1, start, k);
        SegmentSquashedKeeps(mdt, files, n - 1, infos[n - 1], prev.value, k);
      } else {
        SegmentSquashedGap(mdt, files, n - 1, infos[n - 1], prev.value, k);
      }
    }
  }

  /** Every byte that no segment covers is the start image's byte, or a
      zero of the gap past its end. */
  lemma SquashUnwritten(mdt: seq<byte>, files: map<nat, seq<byte>>, infos: seq<PhdrInfo>, start: Progress)
    requires SegmentsSquashed(mdt, files, infos, |infos|, start).Ok?
    ensures var out := SegmentsSquashed(mdt, files, infos, |infos|, start).value.out;
      forall k :: 0 <= k < |out| && (forall i :: 0 <= i < |infos| ==> !WrittenBy(infos[i], k)) ==>
        out[k] == if k < |start.out| then start.out[k] else 0
  {
    var out := SegmentsSquashed(mdt, files, infos, |infos|, start).value.out;
    forall k | 0 <= k < |out| && (forall i :: 0 <= i < |infos| ==> !WrittenBy(infos[i], k))
      ensures out[k] == if k < |start.out| then start.out[k] else 0
    {
      if k < |start.out| {
        SquashKeepsUnwritten(mdt, files, infos, |infos|, start, k);
      } else {
        SquashGapIsZero(mdt, files, infos, |infos|, start, k);
      }
    }
  }

  /** Byte k of non-empty segment j ends up in the image at
      `p_offset + k` unless a later segment covers it too: the data read
      for segment j, with the cursor past the hash segments before it. */
  lemma {:induction false} SquashPlacesSegment(mdt: seq<byte>, files: map<nat, seq<byte>>, infos: seq<PhdrInfo>,
                                               n: nat, start: Progress, j: nat, k: nat)
    requires j < n <= |infos| && SegmentsSquashed(mdt, files, infos, n, start).Ok?
    requires WrittenBy(infos[j], k)
    requires forall i :: j < i < n ==> !WrittenBy(infos[i], k)
    ensures var out := SegmentsSquashed(mdt, files, infos, n, start).value.out;
      var read := FetchSegment(mdt, files, j, infos[j].filesz, IsPilHashSegment(infos[j].flags),
                               start.cursor + HashTotal(infos, j));
      && read.Ok?
      && k < |out| && out[k] == read.value.data[k - infos[j].offset]
    decreases n
  {
    var prev := SegmentsSquashed(mdt, files, infos, n - 1, start);
    assert prev.Ok?;
    SquashNextTurn(mdt, files, infos, n, start, prev.value);
    if j == n - 1 {
      SquashCursor(mdt, files, infos, n - 1, start);
      SegmentSquashedPlaces(mdt, files, j, infos[j], prev.value, k);
    } else {
      SquashPlacesSegment(mdt, files, infos, n - 1, start, j, k);
      assert !WrittenBy(infos[n - 1], k);
      SegmentSquashedKeeps(mdt, files, n - 1, infos[n - 1], prev.value, k);
    }
  }

  /** A turn leaves the bytes outside its segment alone. */
  lemma SegmentSquashedKeeps(mdt: seq<byte>, files: map<nat, seq<byte>>, index: nat, info: PhdrInfo, st: Progress, k: nat)
    requires SegmentSquashed(mdt, files, index, info, st).Ok?
    requires k < |st.out| && !WrittenBy(info, k)
    ensures var out := SegmentSquashed(mdt, files, index, info, st).value.out;
      k < |out| && out[k] == st.out[k]
  {
    if info.filesz > 0 {
      var read := FetchSegment(mdt, files, index, info.filesz, IsPilHashSegment(info.flags), st.cursor);
      OverwriteOutside(st.out, info.offset, read.value.data, k);
    }
  }

  /** A byte past the end of the image that the turn's segment does not
      cover, but that the turn's write extends the image over, is a zero of
      the gap. */
  lemma SegmentSquashedGap(mdt: seq<byte>, files: map<nat, seq<byte>>, index: nat, info: PhdrInfo, st: Progress, k: nat)
    requires SegmentSquashed(mdt, files, index, info, st).Ok?
    requires |st.out| <= k < |SegmentSquashed(mdt, files, index, info, st).value.out| && !WrittenBy(info, k)
    ensures SegmentSquashed(mdt, files, index, info, st).value.out[k] == 0
  {
    var read := FetchSegment(mdt, files, index, info.filesz, IsPilHashSegment(info.flags), st.cursor);
    OverwriteByte(st.out, info.offset, read.value.data, k);
  }

  /** A turn writes the data of its segment at the segment's offset. */
  lemma SegmentSquashedPlaces(mdt: seq<byte>, files: map<nat, seq<byte>>, index: nat, info: PhdrInfo, st: Progress, k: nat)
    requires SegmentSquashed(mdt, files, index, info, st).Ok?
    requires WrittenBy(info, k)
    ensures var out := SegmentSquashed(mdt, files, index, info, st).value.out;
      var read := FetchSegment(mdt, files, index, info.filesz, IsPilHashSegment(info.flags), st.cursor);
      && read.Ok?
      && k < |out| && out[k] == read.value.data[k - info.offset]
  {
    var read := FetchSegment(mdt, files, index, info.filesz, IsPilHashSegment(info.flags), st.cursor);
    OverwriteAt(st.out, info.offset, read.value.data, k, k - info.offset);
  }

  /* ---------------------------------------------------------------------- */
  /* What the squash produces                                               */
  /* ---------------------------------------------------------------------- */

  /** The decoded program headers of a .mdt whose table reads. */
  function MdtInfos(mdt: seq<byte>, c: ElfClass, fileLittleEndian: bool): seq<PhdrInfo>
    requires ReadElfImage(mdt, c, fileLittleEndian).Ok?
  {
    Infos(ReadElfImage(mdt, c, fileLittleEndian).value, c, fileLittleEndian)
  }

  /** A squash succeeds exactly when the path has the .mdt extension, the
      .mdt is identified, its header and table are read and every segment
      can be read, hash segments from the .mdt with the cursor starting at
      the `p_filesz` of program header 0. The path is checked before
      anything else. */
  lemma SquashSucceedsExactly(mdtPath: string, mdt: seq<byte>, files: map<nat, seq<byte>>)
    requires HasMdtExtension(mdtPath) ==> HasProgramHeaders(mdt)
    ensures !HasMdtExtension(mdtPath) ==> SquashOutcome(mdtPath, mdt, files) == Err(NotMdtFile)
    ensures HasMdtExtension(mdtPath) && DetectElfFormat(mdt).Err? ==>
      SquashOutcome(mdtPath, mdt, files) == Err(DetectElfFormat(mdt).error)
    ensures HasMdtExtension(mdtPath) && DetectElfFormat(mdt).Ok? ==>
      var format := DetectElfFormat(mdt).value;
      && SquashOutcome(mdtPath, mdt, files) == SquashElf(mdt, files, format.elfClass, format.isLittleEndian)
      && (SquashOutcome(mdtPath, mdt, files).Ok? <==>
            && ReadElfImage(mdt, format.elfClass, format.isLittleEndian).Ok?
            && var infos := MdtInfos(mdt, format.elfClass, format.isLittleEndian);
               |infos| >= 1 && SegmentsAvailable(mdt, files, infos, |infos|, infos[0].filesz))
  {
    if HasMdtExtension(mdtPath) && DetectElfFormat(mdt).Ok? {
      var format := DetectElfFormat(mdt).value;
      var c, le := format.elfClass, format.isLittleEndian;
      if ReadElfImage(mdt, c, le).Ok? {
        var img := ReadElfImage(mdt, c, le).value;
        var infos := MdtInfos(mdt, c, le);
        SquashSucceedsWhenAvailable(mdt, files, infos, |infos|, Progress(HeaderRegion(img, c), infos[0].filesz));
      }
    }
  }

  /** The image holds the header and every program header of the .mdt at
      their own offsets, wherever no segment is written over them. */
  lemma SquashKeepsHeader(mdt: seq<byte>, files: map<nat, seq<byte>>, c: ElfClass, fileLittleEndian: bool, k: nat)
    requires PhnumPositive(mdt, c, fileLittleEndian) && SquashElf(mdt, files, c, fileLittleEndian).Ok?
    requires ReadElfImage(mdt, c, fileLittleEndian).Ok?
    requires var img := ReadElfImage(mdt, c, fileLittleEndian).value;
      var size := SizeOf(c, ProgramHeader);
      || k < SizeOf(c, ElfHeader)
      || exists i :: 0 <= i < |img.phdrs| && img.phoff + i * size <= k < img.phoff + i * size + size
    requires var infos := MdtInfos(mdt, c, fileLittleEndian);
      forall i :: 0 <= i < |infos| ==> !WrittenBy(infos[i], k)
    ensures var out := SquashElf(mdt, files, c, fileLittleEndian).value;
      k < |out| && k < |mdt| && out[k] == mdt[k]
  {
    var img := ReadElfImage(mdt, c, fileLittleEndian).value;
    var size := SizeOf(c, ProgramHeader);
    var infos := MdtInfos(mdt, c, fileLittleEndian);
    var region := HeaderRegion(img, c);
    HeaderRegionFromSource(mdt, c, fileLittleEndian);
    if k >= SizeOf(c, ElfHeader) {
      var i :| 0 <= i < |img.phdrs| && img.phoff + i * size <= k < img.phoff + i * size + size;
      assert AgreesOn(region, mdt, img.phoff + i * size, img.phoff + i * size + size);
    }
    assert Agrees(region, mdt, k);
    SquashKeepsUnwritten(mdt, files, infos, |infos|, Progress(region, infos[0].filesz), k);
  }
}
