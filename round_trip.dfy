/**
 Splitting an image and squashing what the split wrote gives the image back.

 Every write of either tool puts bytes of the original image at their own
 offsets: the split copies the header, the program headers and the hash
 segments into the .mdt, and each segment into its .bNN file; the squash
 copies them back to the offsets the program headers name. So the rebuilt
 image agrees with the original on the header, on every program header and
 on every non-empty segment, holds nothing else but zeros, and equals the
 original when those cover it. The squash finds the hash segments in the
 .mdt only if its hash cursor starts where the split began to append them:
 program header 0 must be as long as the header region.
 */
module RoundTrip {
  import opened PilCommon
  import opened PilSplitter
  import opened PilSquasher

  /** Writing bytes of `src` at their own offset makes the file agree with
      `src` on them. */
  lemma OverwriteAgreesOnData(f: seq<byte>, src: seq<byte>, offset: nat, size: nat, data: seq<byte>, k: int)
    requires offset + size <= |src| && data == src[offset..offset + size]
    requires offset <= k < offset + size
    ensures Agrees(Overwrite(f, offset, data), src, k)
  {
    OverwriteAt(f, offset, data, k, k - offset);
  }

  /** Writing bytes of `src` at their own offset keeps a file consistent
      with `src`, keeps every byte that agreed with it, and makes it agree
      on the bytes written. */
  lemma OverwriteWithOwnBytes(f: seq<byte>, src: seq<byte>, offset: nat, size: nat, data: seq<byte>)
    requires offset + size <= |src| && data == src[offset..offset + size]
    requires Consistent(f, src)
    ensures var g := Overwrite(f, offset, data);
      && Consistent(g, src)
      && (forall k :: Agrees(f, src, k) ==> Agrees(g, src, k))
      && (forall k :: offset <= k < offset + size ==> Agrees(g, src, k))
  {
    var g := Overwrite(f, offset, data);
    OverwriteKeepsConsistent(f, src, offset, size, data);
    forall k | Agrees(f, src, k) ensures Agrees(g, src, k) {
      OverwriteKeepsAgreement(f, src, offset, size, data, k);
    }
    forall k | offset <= k < offset + size ensures Agrees(g, src, k) {
      OverwriteAgreesOnData(f, src, offset, size, data, k);
    }
  }

  /** The squash reads a hash segment, at a cursor where the .mdt holds a
      copy of image bytes, as that copy. */
  lemma FetchCopiedHashSegment(mdt: seq<byte>, files: map<nat, seq<byte>>, i: nat, filesz: nat, cursor: nat,
                               mbn: seq<byte>, offset: nat)
    requires CopiedFrom(mdt, cursor, mbn, offset, filesz)
    ensures offset + filesz <= |mbn|
    ensures FetchSegment(mdt, files, i, filesz, true, cursor) == Ok(SegmentRead(mbn[offset..offset + filesz], cursor + filesz))
  {
  }

  /** The squash reads any other non-empty segment i of the split's output
      from its .bNN file, as segment i's bytes of the image. */
  lemma FetchFileSegmentOfSplit(mbn: seq<byte>, infos: seq<PhdrInfo>, mdt: seq<byte>,
                                files: map<nat, seq<byte>>, i: nat, cursor: nat)
    requires SegmentsReadable(mbn, infos, |infos|) && i < |infos| && infos[i].filesz > 0
    requires files == SegmentFiles(mbn, infos, |infos|)
    ensures infos[i].offset + infos[i].filesz <= |mbn|
    ensures FetchSegment(mdt, files, i, infos[i].filesz, false, cursor)
            == Ok(SegmentRead(SegmentBytes(mbn, infos[i]), cursor))
  {
    SegmentFilesAt(mbn, infos, |infos|, i);
    var segment := SegmentBytes(mbn, infos[i]);
    assert files[i][..infos[i].filesz] == segment;
  }

  /** One turn of the squash over the split's output reads segment i's
      bytes of the image, from the .mdt or from its .bNN file, and writes
      them back at their own offset. */
  lemma SegmentSquashedOfSplit(mbn: seq<byte>, infos: seq<PhdrInfo>, region: seq<byte>,
                               mdt: seq<byte>, files: map<nat, seq<byte>>, i: nat, st: Progress)
    requires SegmentsReadable(mbn, infos, |infos|) && i < |infos|
    requires mdt == region + HashStream(mbn, infos, |infos|) && files == SegmentFiles(mbn, infos, |infos|)
    requires st.cursor == |region| + HashTotal(infos, i) && Consistent(st.out, mbn)
    ensures var r := SegmentSquashed(mdt, files, i, infos[i], st);
      && r.Ok?
      && r.value.cursor == |region| + HashTotal(infos, i + 1)
      && Consistent(r.value.out, mbn)
      && (forall k :: Agrees(st.out, mbn, k) ==> Agrees(r.value.out, mbn, k))
      && (forall k :: WrittenBy(infos[i], k) ==> Agrees(r.value.out, mbn, k))
  {
    var info := infos[i];
    if info.filesz > 0 {
      if IsPilHashSegment(info.flags) {
        HashSegmentAfterRegion(mdt, region, mbn, infos, i);
        FetchCopiedHashSegment(mdt, files, i, info.filesz, st.cursor, mbn, info.offset);
      } else {
        FetchFileSegmentOfSplit(mbn, infos, mdt, files, i, st.cursor);
      }
      OverwriteWithOwnBytes(st.out, mbn, info.offset, info.filesz, SegmentBytes(mbn, info));
    }
  }

  /** The segment loop of the squash over the split's output, with the hash
      cursor starting at the end of the header region, gets through the
      first `n` segments; the image it writes stays consistent with the
      original, keeps what agreed with it, and agrees with it on each of
      those segments. */
  lemma {:induction false} SquashOfSplitSegments(mbn: seq<byte>, infos: seq<PhdrInfo>, region: seq<byte>,
                                                 mdt: seq<byte>, files: map<nat, seq<byte>>, n: nat)
    requires SegmentsReadable(mbn, infos, |infos|) && n <= |infos| && Consistent(region, mbn)
    requires mdt == region + HashStream(mbn, infos, |infos|) && files == SegmentFiles(mbn, infos, |infos|)
    ensures var r := SegmentsSquashed(mdt, files, infos, n, Progress(region, |region|));
      && r.Ok?
      && r.value.cursor == |region| + HashTotal(infos, n)
      && Consistent(r.value.out, mbn)
      && (forall k :: Agrees(region, mbn, k) ==> Agrees(r.value.out, mbn, k))
      && (forall j, k :: 0 <= j < n && WrittenBy(infos[j], k) ==> Agrees(r.value.out, mbn, k))
    decreases n
  {
    if n > 0 {
      SquashOfSplitSegments(mbn, infos, region, mdt, files, n - 1);
      var start := Progress(region, |region|);
      var prev := SegmentsSquashed(mdt, files, infos, n - 1, start).value;
      SquashNextTurn(mdt, files, infos, n, start, prev);
      SegmentSquashedOfSplit(mbn, infos, region, mdt, files, n - 1, prev);
      var next := SegmentSquashed(mdt, files, n - 1, infos[n - 1], prev).value;
      AgreementStep(mbn, infos, region, n, prev.out, next.out);
    }
  }

  /** Agreement gathered over the first n - 1 turns, and kept and extended
      by turn n - 1, covers the first n segments. */
  lemma AgreementStep(mbn: seq<byte>, infos: seq<PhdrInfo>, region: seq<byte>, n: nat, before: seq<byte>, after: seq<byte>)
    requires 0 < n <= |infos|
    requires forall k :: Agrees(region, mbn, k) ==> Agrees(before, mbn, k)
    requires forall j, k :: 0 <= j < n - 1 && WrittenBy(infos[j], k) ==> Agrees(before, mbn, k)
    requires forall k :: Agrees(before, mbn, k) ==> Agrees(after, mbn, k)
    requires forall k :: WrittenBy(infos[n - 1], k) ==> Agrees(after, mbn, k)
    ensures forall k :: Agrees(region, mbn, k) ==> Agrees(after, mbn, k)
    ensures forall j, k :: 0 <= j < n && WrittenBy(infos[j], k) ==> Agrees(after, mbn, k)
  {
  }

  /** The image has a program header 0, and its `p_filesz` reaches to the
      end of the header or of the program header table, whichever is
      later: that is where the split starts appending hash segments to the
      .mdt, and where the squash starts its hash cursor. */
  predicate CursorStartsAfterHeader(mbn: seq<byte>, c: ElfClass, fileLittleEndian: bool)
    requires ReadElfImage(mbn, c, fileLittleEndian).Ok?
  {
    var img := ReadElfImage(mbn, c, fileLittleEndian).value;
    var infos := ImageInfos(mbn, c, fileLittleEndian);
    && |infos| >= 1
    && infos[0].filesz == HeaderRegionEnd(img, c)
  }

  /** Byte k lies in a header of `headerSize` bytes, in one of `count`
      entries of `size` bytes from `phoff`, or in one of the non-empty
      segments `infos` describe. */
  predicate InLayout(headerSize: nat, phoff: nat, count: nat, size: nat, infos: seq<PhdrInfo>, k: int)
  {
    || 0 <= k < headerSize
    || (exists i :: 0 <= i < count && phoff + i * size <= k < phoff + i * size + size)
    || (exists j :: 0 <= j < |infos| && WrittenBy(infos[j], k))
  }

  /** Byte k of the image lies in its header, in one of its program
      headers or in one of its non-empty segments. */
  predicate Covered(mbn: seq<byte>, c: ElfClass, fileLittleEndian: bool, k: int)
    requires ReadElfImage(mbn, c, fileLittleEndian).Ok?
  {
    var img := ReadElfImage(mbn, c, fileLittleEndian).value;
    InLayout(SizeOf(c, ElfHeader), img.phoff, |img.phdrs|, SizeOf(c, ProgramHeader),
             ImageInfos(mbn, c, fileLittleEndian), k)
  }

  /** Squashing the output of a successful split of an image of class `c`
      and byte order `fileLittleEndian`: the .mdt reads as the same header
      and table as the image, and the squash succeeds with an image
      consistent with the original that agrees with it on every byte the
      original's header, program headers and non-empty segments cover. */
  lemma SquashSplitElf(mbn: seq<byte>, c: ElfClass, fileLittleEndian: bool)
    requires SplitElf(mbn, c, fileLittleEndian).Ok?
    requires ReadElfImage(mbn, c, fileLittleEndian).Ok? && CursorStartsAfterHeader(mbn, c, fileLittleEndian)
    ensures var out := SplitElf(mbn, c, fileLittleEndian).value;
      && ReadElfImage(out.mdt, c, fileLittleEndian) == ReadElfImage(mbn, c, fileLittleEndian)
      && PhnumPositive(out.mdt, c, fileLittleEndian)
      && var r := SquashElf(out.mdt, out.segmentFiles, c, fileLittleEndian);
         && r.Ok?
         && Consistent(r.value, mbn)
         && (forall k :: Covered(mbn, c, fileLittleEndian, k) ==> Agrees(r.value, mbn, k))
  {
    var img := ReadElfImage(mbn, c, fileLittleEndian).value;
    var infos := ImageInfos(mbn, c, fileLittleEndian);
    var out := SplitElf(mbn, c, fileLittleEndian).value;
    var region := HeaderRegion(img, c);
    HeaderRegionLength(img, c);
    SplitElfOk(mbn, c, fileLittleEndian, out, img, infos);
    SplitMdtReadsAsImage(mbn, c, fileLittleEndian);
    HeaderRegionFromSource(mbn, c, fileLittleEndian);
    SquashOfSplitSegments(mbn, infos, region, out.mdt, out.segmentFiles, |infos|);
    var rebuilt := SegmentsSquashed(out.mdt, out.segmentFiles, infos, |infos|, Progress(region, |region|)).value.out;
    assert SquashElf(out.mdt, out.segmentFiles, c, fileLittleEndian) == Ok(rebuilt);
    LayoutAgrees(SizeOf(c, ElfHeader), img.phoff, |img.phdrs|, SizeOf(c, ProgramHeader), infos, region, rebuilt, mbn);
  }

  /** ... and every byte of that image outside the original's header,
      program headers and non-empty segments is zero. */
  lemma SquashSplitElfZeros(mbn: seq<byte>, c: ElfClass, fileLittleEndian: bool)
    requires SplitElf(mbn, c, fileLittleEndian).Ok?
    requires ReadElfImage(mbn, c, fileLittleEndian).Ok? && CursorStartsAfterHeader(mbn, c, fileLittleEndian)
    ensures var out := SplitElf(mbn, c, fileLittleEndian).value;
      && PhnumPositive(out.mdt, c, fileLittleEndian)
      && var r := SquashElf(out.mdt, out.segmentFiles, c, fileLittleEndian);
         && r.Ok?
         && (forall k :: 0 <= k < |r.value| && !Covered(mbn, c, fileLittleEndian, k) ==> r.value[k] == 0)
  {
    var img := ReadElfImage(mbn, c, fileLittleEndian).value;
    var infos := ImageInfos(mbn, c, fileLittleEndian);
    var out := SplitElf(mbn, c, fileLittleEndian).value;
    var region := HeaderRegion(img, c);
    HeaderRegionLength(img, c);
    SplitElfOk(mbn, c, fileLittleEndian, out, img, infos);
    SplitMdtReadsAsImage(mbn, c, fileLittleEndian);
    HeaderRegionFromSource(mbn, c, fileLittleEndian);
    SquashOfSplitSegments(mbn, infos, region, out.mdt, out.segmentFiles, |infos|);
    var rebuilt := SegmentsSquashed(out.mdt, out.segmentFiles, infos, |infos|, Progress(region, |region|)).value.out;
    assert SquashElf(out.mdt, out.segmentFiles, c, fileLittleEndian) == Ok(rebuilt);
    SquashUnwritten(out.mdt, out.segmentFiles, infos, Progress(region, |region|));
    LayoutZeros(SizeOf(c, ElfHeader), img.phoff, |img.phdrs|, SizeOf(c, ProgramHeader), infos, region, rebuilt);
  }

  /** The .mdt of a successful split reads as the image's own header and
      table, which name at least one program header when program header 0
      starts the hash cursor. */
  lemma SplitMdtReadsAsImage(mbn: seq<byte>, c: ElfClass, fileLittleEndian: bool)
    requires SplitElf(mbn, c, fileLittleEndian).Ok?
    requires ReadElfImage(mbn, c, fileLittleEndian).Ok? && CursorStartsAfterHeader(mbn, c, fileLittleEndian)
    ensures var out := SplitElf(mbn, c, fileLittleEndian).value;
      && ReadElfImage(out.mdt, c, fileLittleEndian) == ReadElfImage(mbn, c, fileLittleEndian)
      && PhnumPositive(out.mdt, c, fileLittleEndian)
  {
    var img := ReadElfImage(mbn, c, fileLittleEndian).value;
    var out := SplitElf(mbn, c, fileLittleEndian).value;
    SplitMdtHeader(mbn, c, fileLittleEndian);
    ReadElfImageFromAgreeing(out.mdt, mbn, c, fileLittleEndian);
    assert ReadElfHeader(out.mdt, c) == Ok(img.ehdr);
  }

  /** A file whose bytes outside every segment are the header region's, or
      zeros past its end, is zero outside the layout when the region is zero
      outside the header and the program header slots. */
  lemma LayoutZeros(headerSize: nat, phoff: nat, count: nat, size: nat, infos: seq<PhdrInfo>,
                    region: seq<byte>, rebuilt: seq<byte>)
    requires forall k :: headerSize <= k < |region| && (forall i :: 0 <= i < count ==> !InSlot(phoff, size, i, k)) ==>
      region[k] == 0
    requires forall k :: 0 <= k < |rebuilt| && (forall j :: 0 <= j < |infos| ==> !WrittenBy(infos[j], k)) ==>
      rebuilt[k] == if k < |region| then region[k] else 0
    ensures forall k :: 0 <= k < |rebuilt| && !InLayout(headerSize, phoff, count, size, infos, k) ==> rebuilt[k] == 0
  {
    forall k | 0 <= k < |rebuilt| && !InLayout(headerSize, phoff, count, size, infos, k) ensures rebuilt[k] == 0 {
      assert forall i :: 0 <= i < count ==> !InSlot(phoff, size, i, k);
    }
  }

  /** A file that keeps every byte on which the header region agrees with
      `src`, and agrees with `src` on every non-empty segment, agrees with
      it on every byte of the layout. */
  lemma LayoutAgrees(headerSize: nat, phoff: nat, count: nat, size: nat, infos: seq<PhdrInfo>,
                     region: seq<byte>, rebuilt: seq<byte>, src: seq<byte>)
    requires AgreesOn(region, src, 0, headerSize)
    requires forall i :: 0 <= i < count ==> AgreesOn(region, src, phoff + i * size, phoff + i * size + size)
    requires forall k :: Agrees(region, src, k) ==> Agrees(rebuilt, src, k)
    requires forall j, k :: 0 <= j < |infos| && WrittenBy(infos[j], k) ==> Agrees(rebuilt, src, k)
    ensures forall k :: InLayout(headerSize, phoff, count, size, infos, k) ==> Agrees(rebuilt, src, k)
  {
    forall k | InLayout(headerSize, phoff, count, size, infos, k) ensures Agrees(rebuilt, src, k) {
      if 0 <= k < headerSize {
        assert Agrees(region, src, k);
      } else if exists i :: 0 <= i < count && phoff + i * size <= k < phoff + i * size + size {
        var i :| 0 <= i < count && phoff + i * size <= k < phoff + i * size + size;
        assert AgreesOn(region, src, phoff + i * size, phoff + i * size + size);
        assert Agrees(region, src, k);
      } else {
        var j :| 0 <= j < |infos| && WrittenBy(infos[j], k);
      }
    }
  }

  /** A file consistent with `src` that agrees with it on every byte is
      `src`. */
  lemma AgreesEverywhere(f: seq<byte>, src: seq<byte>)
    requires Consistent(f, src) && forall k :: 0 <= k < |src| ==> Agrees(f, src, k)
    ensures f == src
  {
    if |src| > 0 {
      assert Agrees(f, src, |src| - 1);
    }
    forall k | 0 <= k < |src| ensures f[k] == src[k] {
      assert Agrees(f, src, k);
    }
  }

  /** The metadata path is used for both tools, and the image's class and
      byte order are those the squash identifies in the .mdt. */
  predicate CursorStartsAfterHeaderOf(mbn: seq<byte>)
  {
    DetectElfFormat(mbn).Ok? ==>
      var format := DetectElfFormat(mbn).value;
      ReadElfImage(mbn, format.elfClass, format.isLittleEndian).Ok? ==>
        CursorStartsAfterHeader(mbn, format.elfClass, format.isLittleEndian)
  }

  /** The round trip: when `split` succeeds on an image and program header
      0 is as long as the header region, `squash` on the same metadata
      path, the .mdt and the segment files succeeds. Its image is
      consistent with the original, agrees with it on every byte its
      header, program headers and non-empty segments cover, and is the
      original when they cover all of it. */
  lemma SquashAfterSplit(mbn: seq<byte>, mdtPath: string)
    requires SplitOutcome(mbn, mdtPath).Ok? && CursorStartsAfterHeaderOf(mbn)
    ensures var out := SplitOutcome(mbn, mdtPath).value;
      && HasProgramHeaders(out.mdt)
      && DetectElfFormat(out.mdt) == DetectElfFormat(mbn)
      && var format := DetectElfFormat(mbn).value;
         var c, le := format.elfClass, format.isLittleEndian;
         var r := SquashOutcome(mdtPath, out.mdt, out.segmentFiles);
         && ReadElfImage(mbn, c, le).Ok?
         && r.Ok?
         && Consistent(r.value, mbn)
         && (forall k :: Covered(mbn, c, le, k) ==> Agrees(r.value, mbn, k))
         && (forall k :: 0 <= k < |r.value| && !Covered(mbn, c, le, k) ==> r.value[k] == 0)
         && ((forall k :: 0 <= k < |mbn| ==> Covered(mbn, c, le, k)) ==> r.value == mbn)
  {
    var format := DetectElfFormat(mbn).value;
    var c, le := format.elfClass, format.isLittleEndian;
    var out := SplitOutcome(mbn, mdtPath).value;
    assert SplitElf(mbn, c, le) == Ok(out);
    SplitMdtHeader(mbn, c, le);
    SquashSplitElf(mbn, c, le);
    SquashSplitElfZeros(mbn, c, le);
    var img := ReadElfImage(mbn, c, le).value;
    assert AgreesOn(out.mdt, mbn, 0, SizeOf(c, ElfHeader));
    assert Agrees(out.mdt, mbn, IdentSize - 1);
    forall k | 0 <= k < IdentSize ensures out.mdt[k] == mbn[k] {
      assert Agrees(out.mdt, mbn, k);
    }
    DetectElfFormatReadsIdentOnly(out.mdt, mbn);
    var r := SquashOutcome(mdtPath, out.mdt, out.segmentFiles);
    if forall k :: 0 <= k < |mbn| ==> Covered(mbn, c, le, k) {
      AgreesEverywhere(r.value, mbn);
    }
  }
}
