/** How parse_header_elf ends when it adds nothing, cause by cause. Numbers are those of the ELF gABI. */
module ElfVerdicts {
  import opened Words
  import opened GuestMemory
  import opened ImageReading
  import opened BytesInImage
  import opened ElfReader
  import opened ElfProperties
  import opened ElfLayout

  /** Bytes 0 to 3 are 7f 'E' 'L' 'F', byte 5 says little-endian and byte 6 is the current version. */
  ghost predicate LooksLikeElf(mem: Memory, base: Word64) {
    && Read1(mem, base, 0) == Some(0x7f) && Read1(mem, base, 1) == Some(0x45) && Read1(mem, base, 2) == Some(0x4c)
    && Read1(mem, base, 3) == Some(0x46) && Read1(mem, base, 5) == Some(1) && Read1(mem, base, 6) == Some(1)
  }

  lemma IdentBytes(mem: Memory, base: Word64)
    ensures var img := ImageAt(mem, base);
            forall i: nat :: i < 52 ==> img(i, W8) == Read1(mem, base, i)
  {
    forall i: nat | i < 52
      ensures ImageAt(mem, base)(i, W8) == Read1(mem, base, i)
    {
      ByteReads(mem, base, 0, i);
    }
  }

  /** The first 52 bytes are not all readable: the attempt is repeated later. */
  lemma HeaderUnreadable(mem: Memory, base: Word64, file: CString, i: nat)
    requires i < 52 && Read1(mem, base, i).None?
    ensures Parse(mem, base, file) == Outcome(Retry, [])
  {
    IdentBytes(mem, base);
    assert ImageAt(mem, base)(i, W8).None?;
  }

  /** They are readable, but not the start of a little-endian ELF file: there is nothing to parse. */
  lemma NotElf(mem: Memory, base: Word64, file: CString)
    requires (forall i: nat :: i < 52 ==> Read1(mem, base, i).Some?) && !LooksLikeElf(mem, base)
    ensures Parse(mem, base, file) == Outcome(Done, [])
  {
    IdentBytes(mem, base);
    assert EhdrReadable(ImageAt(mem, base)) && !GoodIdent(ImageAt(mem, base));
  }

  lemma AllSegmentsRead(mem: Memory, base: Word64, is64: bool, l: Layout)
    requires HeaderLaid(mem, base, is64, l) && SegmentsLaid(mem, base, is64, l)
    ensures var h := Header(is64, |l.segments|, l.phentsize, l.phoff);
            && ReadHeader(ImageAt(mem, base)) == Elf(h)
            && forall i: nat :: i < |l.segments| ==> ReadSegment(ImageAt(mem, base), h, i) == Some(l.segments[i])
  {
    hide SegmentsLaid, ReadHeader, ReadSegment, ImageAt;
    HeaderReads(mem, base, is64, l);
    forall i: nat | i < |l.segments|
      ensures ReadSegment(ImageAt(mem, base), Header(is64, |l.segments|, l.phentsize, l.phoff), i)
              == Some(l.segments[i])
    {
      SegmentsRead(mem, base, is64, l, i);
    }
  }

  lemma NothingFound(img: Image, h: Header, segments: seq<Segment>)
    requires h.phnum == |segments| && forall i: nat :: i < |segments| ==> segments[i].kind != 2
    requires forall i: nat :: i < |segments| ==> ReadSegment(img, h, i) == Some(segments[i])
    ensures FindDynamic(img, h, 0, NO_DYNAMIC) == Some(NO_DYNAMIC)
  {
    hide ReadSegment;
    assert forall i: nat :: i < |segments| ==> !IsDynamic(img, h, i);
    FindDynamicExact(img, h, 0, NO_DYNAMIC, NO_DYNAMIC);
  }

  /** No program header has type 2, PT_DYNAMIC: a static executable is done with at the first block. */
  lemma NoDynamicSegment(mem: Memory, base: Word64, file: CString, is64: bool, l: Layout)
    requires HeaderLaid(mem, base, is64, l) && SegmentsLaid(mem, base, is64, l)
    requires forall i: nat :: i < |l.segments| ==> l.segments[i].kind != 2
    ensures Parse(mem, base, file) == Outcome(Done, [])
  {
    hide ReadHeader, ReadSegment, FindDynamic, ReadTables, ImageAt, HeaderLaid, SegmentsLaid;
    AllSegmentsRead(mem, base, is64, l);
    NothingFound(ImageAt(mem, base), Header(is64, |l.segments|, l.phentsize, l.phoff), l.segments);
  }

  /** The program headers and the dynamic section are there, but one of the four table values is missing or 0. */
  lemma MissingTable(mem: Memory, base: Word64, file: CString, is64: bool, l: Layout)
    requires HeaderLaid(mem, base, is64, l) && SegmentsLaid(mem, base, is64, l) && DynamicLaid(mem, base, is64, l)
    requires var t := TablesOf(l.entries, base); t.strtab == 0 || t.symtab == 0 || t.strsz == 0 || t.syment == 0
    ensures Parse(mem, base, file) == Outcome(Done, [])
  {
    FrontReads(mem, base, is64, l);
  }

  lemma SegmentFails(mem: Memory, base: Word64, h: Header, i: nat)
    requires Read4(mem, base + (h.phoff + i * h.phentsize) % TWO_TO_64, 0).None?
    ensures ReadSegment(ImageAt(mem, base), h, i).None?
  {
    var off := SegmentAt(h, i);
    assert off == (h.phoff + i * h.phentsize) % TWO_TO_64;
    assert Read(mem, base + off, W32) == Read4(mem, base + off, 0);
    assert ImageAt(mem, base)(off, W32) == Read(mem, base + off, W32);
  }

  lemma FindDynamicFails(img: Image, h: Header, i: nat)
    requires i < h.phnum && ReadSegment(img, h, i).None?
    ensures FindDynamic(img, h, 0, NO_DYNAMIC).None?
  {
    if FindDynamic(img, h, 0, NO_DYNAMIC).Some? {
      FindDynamicExact(img, h, 0, NO_DYNAMIC, FindDynamic(img, h, 0, NO_DYNAMIC).value);
    }
  }

  /** Some program header is not readable: the attempt is repeated later. */
  lemma SegmentUnreadable(mem: Memory, base: Word64, file: CString, is64: bool, l: Layout, i: nat)
    requires HeaderLaid(mem, base, is64, l) && i < |l.segments|
    requires Read4(mem, base + (l.phoff + i * l.phentsize) % TWO_TO_64, 0).None?
    ensures Parse(mem, base, file) == Outcome(Retry, [])
  {
    hide ReadHeader, ReadSegment, FindDynamic, ReadTables, ImageAt, HeaderLaid, Read;
    HeaderReads(mem, base, is64, l);
    var img, h := ImageAt(mem, base), Header(is64, |l.segments|, l.phentsize, l.phoff);
    SegmentFails(mem, base, h, i);
    FindDynamicFails(img, h, i);
  }
}
