/**
 ELF32 and ELF64 files laid out in memory byte by byte, and what parse_header_elf makes of them. The layouts and the
 tracepoints are written with the numbers of the ELF gABI (chapters 4 and 5) and name nothing of the reader.
 */
module ElfLayout {
  import opened Words
  import opened GuestMemory
  import opened FunctionTable
  import opened ImageReading
  import opened WalkProperties
  import opened BytesInImage
  import opened ElfReader
  import opened ElfProperties

  /** A symbol of the abstract file. */
  datatype Definition = Definition(name: seq<Byte>, value: Word64, info: Byte)

  /** Where one class of file puts the headers, the dynamic section, the symbols and their names. */
  datatype Layout = Layout(
    phoff: Word64,
    phentsize: Word64,
    segments: seq<Segment>,
    dynamic: nat,
    entries: seq<Entry>,
    nameAt: seq<Word64>)

  // ----- the bytes -----

  /** The ELF header: e_ident, e_phoff, e_phentsize and e_phnum; its other bytes are readable. */
  ghost predicate HeaderLaid(mem: Memory, base: Word64, is64: bool, l: Layout) {
    && (forall i: nat :: i < 52 ==> Read1(mem, base, i).Some?)
    && BytesFrom(mem, base, 0, [0x7f, 'E' as int, 'L' as int, 'F' as int, if is64 then 2 else 1, 1, 1])
    && WordAt(mem, base + if is64 then 32 else 28, if is64 then W64 else W32, l.phoff)
    && WordAt(mem, base + if is64 then 54 else 42, W16, l.phentsize)
    && WordAt(mem, base + if is64 then 56 else 44, W16, |l.segments|)
  }

  /** A program header: p_type, p_offset, p_vaddr, p_filesz and p_memsz. */
  ghost predicate SegmentLaid(mem: Memory, a: int, is64: bool, s: Segment) {
    if is64 then
      && WordAt(mem, a, W32, s.kind) && WordAt(mem, a + 8, W64, s.offset) && WordAt(mem, a + 16, W64, s.vaddr)
      && WordAt(mem, a + 32, W64, s.filesz) && WordAt(mem, a + 40, W64, s.memsz)
    else
      && WordAt(mem, a, W32, s.kind) && WordAt(mem, a + 4, W32, s.offset) && WordAt(mem, a + 8, W32, s.vaddr)
      && WordAt(mem, a + 16, W32, s.filesz) && WordAt(mem, a + 20, W32, s.memsz)
  }

  ghost predicate SegmentsLaid(mem: Memory, base: Word64, is64: bool, l: Layout) {
    && l.phoff + |l.segments| * l.phentsize < TWO_TO_64
    && forall i: nat :: i < |l.segments| ==>
                          SegmentLaid(mem, base + Offset(l.phoff, l.phentsize, i), is64, l.segments[i])
  }

  /** A dynamic section entry: d_tag and d_un. */
  ghost predicate EntryLaid(mem: Memory, a: int, is64: bool, e: Entry) {
    if is64 then WordAt(mem, a, W64, e.tag) && WordAt(mem, a + 8, W64, e.val)
    else WordAt(mem, a, W32, e.tag) && WordAt(mem, a + 4, W32, e.val)
  }

  /** Program header l.dynamic is the last one of type 2, PT_DYNAMIC, and describes exactly the entries. */
  ghost predicate DynamicLaid(mem: Memory, base: Word64, is64: bool, l: Layout) {
    && l.dynamic < |l.segments| && l.segments[l.dynamic].kind == 2
    && (forall j :: l.dynamic < j < |l.segments| ==> l.segments[j].kind != 2)
    && (var s, step := l.segments[l.dynamic], if is64 then 16 else 8;
        && s.offset != 0xffff_ffff_ffff_ffff && s.vaddr != 0xffff_ffff_ffff_ffff
        && (if s.filesz == 0 then s.memsz else s.filesz) == Offset(0, step, |l.entries|)
        && forall i: nat :: i < |l.entries| ==>
                              EntryLaid(mem, base + s.vaddr + Offset(0, step, i), is64, l.entries[i]))
  }

  /** The value of the last entry with this tag. */
  function LastVal(entries: seq<Entry>, tag: Word64): Word64
    decreases |entries|
  {
    if entries == [] then 0
    else if entries[|entries| - 1].tag == tag then entries[|entries| - 1].val
    else LastVal(entries[..|entries| - 1], tag)
  }

  /** What an address is in the file, whether or not the loader has added the image base. */
  function InFile(val: Word64, base: Word64): Word64 {
    if base <= val then val - base else val
  }

  /** Tags 5, 6, 10 and 11: DT_STRTAB, DT_SYMTAB, DT_STRSZ and DT_SYMENT. */
  function TablesOf(entries: seq<Entry>, base: Word64): Tables {
    Tables(InFile(LastVal(entries, 5), base), InFile(LastVal(entries, 6), base), LastVal(entries, 10),
           LastVal(entries, 11))
  }

  /** A symbol: st_name, st_value and st_info. */
  ghost predicate DefinitionLaid(mem: Memory, a: int, is64: bool, nameAt: Word64, d: Definition) {
    if is64 then WordAt(mem, a, W32, nameAt) && WordAt(mem, a + 4, W8, d.info) && WordAt(mem, a + 8, W64, d.value)
    else WordAt(mem, a, W32, nameAt) && WordAt(mem, a + 4, W32, d.value) && WordAt(mem, a + 12, W8, d.info)
  }

  /** The symbol table fills the space up to the string table. */
  ghost predicate SymbolsLaid(mem: Memory, base: Word64, is64: bool, l: Layout, defs: seq<Definition>) {
    var t := TablesOf(l.entries, base);
    && t.strtab != 0 && t.symtab != 0 && t.strsz != 0 && t.syment != 0 && |l.nameAt| == |defs|
    && t.strtab <= Offset(t.symtab, t.syment, |defs|) < TWO_TO_64
    && forall i: nat :: i < |defs| ==>
                          && Offset(t.symtab, t.syment, i) < t.strtab
                          && DefinitionLaid(mem, base + Offset(t.symtab, t.syment, i), is64, l.nameAt[i], defs[i])
                          && NameLaid(mem, base + t.strtab + l.nameAt[i], defs[i].name)
  }

  /** The file is in memory at `base`, in this class and layout. */
  ghost predicate LaidOut(mem: Memory, base: Word64, is64: bool, l: Layout, defs: seq<Definition>) {
    && HeaderLaid(mem, base, is64, l) && SegmentsLaid(mem, base, is64, l)
    && DynamicLaid(mem, base, is64, l) && SymbolsLaid(mem, base, is64, l, defs)
  }

  // ----- reading them back -----

  lemma HeaderReads(mem: Memory, base: Word64, is64: bool, l: Layout)
    requires HeaderLaid(mem, base, is64, l)
    ensures ReadHeader(ImageAt(mem, base)) == Elf(Header(is64, |l.segments|, l.phentsize, l.phoff))
  {
    var img := ImageAt(mem, base);
    var ident: seq<Byte> := [0x7f, 'E' as int, 'L' as int, 'F' as int, if is64 then 2 else 1, 1, 1];
    forall i: nat | i < EHDR32_SIZE
      ensures img(i, W8) == Read1(mem, base, i)
    {
      ByteReads(mem, base, 0, i);
    }
    forall i: nat | i < 7
      ensures img(i, W8) == Some(ident[i])
    {
      assert Read1(mem, base, 0 + i) == Some(ident[i]);
    }
    assert EhdrReadable(img) && GoodIdent(img) && Is64(img) == is64;
    FieldsRead(mem, base, HeaderFields(is64), [|l.segments|, l.phentsize, l.phoff]);
  }

  lemma SegmentReads(mem: Memory, base: Word64, is64: bool, off: Word64, s: Segment)
    requires SegmentLaid(mem, base + off, is64, s)
    ensures Loads(ImageAt(mem, base), SegmentFields(is64, off)) == Some([s.kind, s.offset, s.vaddr, s.filesz, s.memsz])
  {
    hide Loads, ImageAt, WordAt;
    var fields, vs: seq<Word64> := SegmentFields(is64, off), [s.kind, s.offset, s.vaddr, s.filesz, s.memsz];
    forall i | 0 <= i < |fields|
      ensures WordAt(mem, base + fields[i].off, fields[i].w, vs[i])
    {}
    FieldsRead(mem, base, fields, vs);
  }

  lemma SegmentPlace(h: Header, i: nat, n: nat)
    requires i < n && h.phoff + n * h.phentsize < TWO_TO_64
    ensures SegmentAt(h, i) == Offset(h.phoff, h.phentsize, i)
  {
    assert 0 <= i * h.phentsize <= n * h.phentsize;
  }

  lemma SegmentsRead(mem: Memory, base: Word64, is64: bool, l: Layout, i: nat)
    requires SegmentsLaid(mem, base, is64, l) && i < |l.segments| < 0x1_0000
    ensures ReadSegment(ImageAt(mem, base), Header(is64, |l.segments|, l.phentsize, l.phoff), i) == Some(l.segments[i])
  {
    var h := Header(is64, |l.segments|, l.phentsize, l.phoff);
    SegmentPlace(h, i, |l.segments|);
    SegmentReads(mem, base, is64, SegmentAt(h, i), l.segments[i]);
  }

  lemma DynamicReads(img: Image, h: Header, segments: seq<Segment>, k: nat)
    requires |segments| == h.phnum && k < |segments| && segments[k].kind == 2
    requires forall j :: k < j < |segments| ==> segments[j].kind != 2
    requires forall i: nat :: i < |segments| ==> ReadSegment(img, h, i) == Some(segments[i])
    ensures FindDynamic(img, h, 0, NO_DYNAMIC) == Some(DynamicOf(segments[k]))
  {
    assert LastDynamic(img, h, 0, k);
    FindDynamicExact(img, h, 0, NO_DYNAMIC, DynamicOf(segments[k]));
  }

  lemma EntryReads(mem: Memory, base: Word64, is64: bool, vaddr: Word64, i: Word64, e: Entry)
    requires EntryLaid(mem, base + vaddr + i, is64, e)
    ensures ReadEntry(ImageAt(mem, base), is64, vaddr, i) == Some(e)
  {
    FieldsRead(mem, base, EntryFields(is64, vaddr, i), [e.tag, e.val]);
  }

  lemma TablesOfNext(entries: seq<Entry>, base: Word64, k: nat)
    requires k < |entries|
    ensures Enter(TablesOf(entries[..k], base), entries[k], base) == TablesOf(entries[..k + 1], base)
  {
    var next := entries[..k + 1];
    assert next[..|next| - 1] == entries[..k] && next[|next| - 1] == entries[k];
  }

  /** The dynamic section reads as these entries. */
  ghost predicate EntriesRead(img: Image, is64: bool, d: Dynamic, entries: seq<Entry>) {
    && d.size == Offset(0, DynStep(is64), |entries|)
    && forall k: nat :: k < |entries| ==>
                          && Offset(0, DynStep(is64), k) < d.size
                          && ReadEntry(img, is64, d.vaddr, Offset(0, DynStep(is64), k)) == Some(entries[k])
  }

  lemma {:induction false} TablesRead(img: Image, base: Word64, is64: bool, d: Dynamic, entries: seq<Entry>, k: nat)
    requires EntriesRead(img, is64, d, entries) && k <= |entries|
    ensures var i := Offset(0, DynStep(is64), k);
            && i < TWO_TO_64
            && ReadTables(img, base, is64, d, i, TablesOf(entries[..k], base)) == Complete(TablesOf(entries, base))
    decreases |entries| - k
  {
    var i := Offset(0, DynStep(is64), k);
    if k == |entries| {
      assert entries[..k] == entries;
    } else {
      assert i + DynStep(is64) == Offset(0, DynStep(is64), k + 1);
      assert ReadEntry(img, is64, d.vaddr, i) == Some(entries[k]);
      TablesOfNext(entries, base, k);
      TablesRead(img, base, is64, d, entries, k + 1);
    }
  }

  lemma EntriesReadBack(mem: Memory, base: Word64, is64: bool, l: Layout)
    requires DynamicLaid(mem, base, is64, l)
    ensures EntriesRead(ImageAt(mem, base), is64, DynamicOf(l.segments[l.dynamic]), l.entries)
  {
    var d := DynamicOf(l.segments[l.dynamic]);
    forall k: nat | k < |l.entries|
      ensures Offset(0, DynStep(is64), k) < d.size
      ensures ReadEntry(ImageAt(mem, base), is64, d.vaddr, Offset(0, DynStep(is64), k)) == Some(l.entries[k])
    {
      EntryReads(mem, base, is64, d.vaddr, Offset(0, DynStep(is64), k), l.entries[k]);
    }
  }

  lemma FrontReads(mem: Memory, base: Word64, is64: bool, l: Layout)
    requires HeaderLaid(mem, base, is64, l) && SegmentsLaid(mem, base, is64, l) && DynamicLaid(mem, base, is64, l)
    ensures var t := TablesOf(l.entries, base);
            ReadFront(ImageAt(mem, base), base) ==
            if t.strtab != 0 && t.symtab != 0 && t.strsz != 0 && t.syment != 0 then Ready(is64, t) else Ended(Done)
  {
    hide SegmentsLaid, ReadHeader, ReadSegment, FindDynamic, ReadTables, ImageAt;
    var img := ImageAt(mem, base);
    HeaderReads(mem, base, is64, l);
    forall i: nat | i < |l.segments|
      ensures ReadSegment(img, Header(is64, |l.segments|, l.phentsize, l.phoff), i) == Some(l.segments[i])
    {
      SegmentsRead(mem, base, is64, l, i);
    }
    DynamicReads(img, Header(is64, |l.segments|, l.phentsize, l.phoff), l.segments, l.dynamic);
    EntriesReadBack(mem, base, is64, l);
    TablesRead(img, base, is64, DynamicOf(l.segments[l.dynamic]), l.entries, 0);
    assert l.entries[..0] == [] && TablesOf([], base) == Tables(0, 0, 0, 0);
  }

  // ----- symbols and names -----

  /** The symbol as the reader sees it. */
  function SymbolOf(d: Definition): Symbol {
    if d.info % 16 == STT_FUNC then Function(d.value, Cut(d.name)) else Other
  }

  lemma DefinitionReads(mem: Memory, base: Word64, is64: bool, s: Word64, nameAt: Word64, d: Definition)
    requires DefinitionLaid(mem, base + s, is64, nameAt, d)
    ensures Loads(ImageAt(mem, base), SymbolFields(is64, s)) == Some([nameAt, d.value, d.info])
  {
    FieldsRead(mem, base, SymbolFields(is64, s), [nameAt, d.value, d.info]);
  }

  lemma SymbolReads(mem: Memory, base: Word64, is64: bool, strtab: Word64, s: Word64, nameAt: Word64, d: Definition)
    requires DefinitionLaid(mem, base + s, is64, nameAt, d) && NameLaid(mem, base + strtab + nameAt, d.name)
    ensures ReadSymbol(ImageAt(mem, base), is64, strtab, s) == Some(SymbolOf(d))
  {
    hide DefinitionLaid, NameLaid, Loads, ImageAt, WordAt;
    var start: int := strtab;
    DefinitionReads(mem, base, is64, s, nameAt, d);
    NameReads(mem, base, start + nameAt, d.name);
  }

  /**
   The tracepoints of the function definitions among these, in order: those of type 2, STT_FUNC. Each is at the
   symbol's value after the image base, and is named by the path bytes, a colon, and the first 127 bytes of its name.
   */
  function Listed(base: Word64, file: CString, defs: seq<Definition>): seq<Tracepoint>
    decreases |defs|
  {
    if defs == [] then []
    else (if defs[0].info % 16 == 2
          then [Tracepoint((defs[0].value + base) % TWO_TO_64, Labelled(file, defs[0].name))]
          else []) + Listed(base, file, defs[1..])
  }

  /** The symbol table reads as these symbols. */
  ghost predicate SymbolsRead(img: Image, is64: bool, t: Tables, defs: seq<Definition>) {
    && t.strtab <= Offset(t.symtab, t.syment, |defs|) < TWO_TO_64
    && forall i: nat :: i < |defs| ==>
                          && t.symtab <= Offset(t.symtab, t.syment, i) < t.strtab
                          && ReadSymbol(img, is64, t.strtab, Offset(t.symtab, t.syment, i)) == Some(SymbolOf(defs[i]))
  }

  lemma SymbolsReadBack(mem: Memory, base: Word64, is64: bool, l: Layout, defs: seq<Definition>)
    requires SymbolsLaid(mem, base, is64, l, defs)
    ensures SymbolsRead(ImageAt(mem, base), is64, TablesOf(l.entries, base), defs)
  {
    var t := TablesOf(l.entries, base);
    forall i: nat | i < |defs|
      ensures t.symtab <= Offset(t.symtab, t.syment, i) < t.strtab
      ensures ReadSymbol(ImageAt(mem, base), is64, t.strtab, Offset(t.symtab, t.syment, i)) == Some(SymbolOf(defs[i]))
    {
      OffsetGrows(t.symtab, t.syment, i, |defs|);
      SymbolReads(mem, base, is64, t.strtab, Offset(t.symtab, t.syment, i), l.nameAt[i], defs[i]);
    }
  }

  lemma {:induction false} WalkLists(img: Image, base: Word64, file: CString, is64: bool, t: Tables,
                                     defs: seq<Definition>, k: nat, left: nat)
    requires t.syment != 0 && SymbolsRead(img, is64, t, defs) && k <= |defs| <= k + left
    ensures k <= Offset(t.symtab, t.syment, k) < TWO_TO_64
    ensures Walk(CallsAt(img, base, file, is64, t.strtab), Offset(t.symtab, t.syment, k),
                 t.strtab, t.syment, [], left) ==
            Outcome(Done, Listed(base, file, defs[k..]))
    decreases |defs| - k
  {
    hide CallFor, SymbolOf, ReadSymbol;
    var calls := CallsAt(img, base, file, is64, t.strtab);
    OffsetGrows(t.symtab, t.syment, k, |defs|);
    if k < |defs| {
      WalkLists(img, base, file, is64, t, defs, k + 1, left - 1);
      OffsetNext(t.symtab, t.syment, k);
      var more := CallFor(base, file, SymbolOf(defs[k]));
      assert calls(Offset(t.symtab, t.syment, k)) == Some(more);
      StepOne(calls, Offset(t.symtab, t.syment, k), Offset(t.symtab, t.syment, k + 1), t.strtab, t.syment, more,
              Listed(base, file, defs[k + 1..]), left);
      ListedNext(base, file, defs, k);
    }
  }

  lemma StepOne(calls: Calls, s: Word64, next: Word64, end: Word64, step: Word64, more: seq<Tracepoint>,
                rest: seq<Tracepoint>, left: nat)
    requires s < end && left > 0 && calls(s) == Some(more) && next == s + step
    requires Walk(calls, next, end, step, [], left - 1) == Outcome(Done, rest)
    ensures Walk(calls, s, end, step, [], left) == Outcome(Done, more + rest)
  {
    assert Add64(s, step) == next;
    WalkOne(calls, s, end, step, more, left);
  }

  lemma ListedNext(base: Word64, file: CString, defs: seq<Definition>, k: nat)
    requires k < |defs|
    ensures Listed(base, file, defs[k..]) == CallFor(base, file, SymbolOf(defs[k])) + Listed(base, file, defs[k + 1..])
  {
    assert defs[k..][0] == defs[k] && defs[k..][1..] == defs[k + 1..];
    LabelIsFullName(file, defs[k].name);
  }

  lemma OffsetNext(start: Word64, step: Word64, k: nat)
    ensures Offset(start, step, k) + step == Offset(start, step, k + 1)
  {}

  lemma OffsetGrows(start: Word64, step: Word64, k: nat, n: nat)
    requires k <= n
    ensures start <= Offset(start, step, k) <= Offset(start, step, n)
    ensures step != 0 ==> k <= Offset(start, step, k)
  {
    assert 0 <= k * step <= n * step;
    assert step > 0 ==> k <= k * step;
  }

  /** A file laid out in either class is parsed successfully, and gives one tracepoint for each of its functions. */
  lemma LaidOutParses(mem: Memory, base: Word64, file: CString, is64: bool, l: Layout, defs: seq<Definition>)
    requires LaidOut(mem, base, is64, l, defs)
    ensures Parse(mem, base, file) == Outcome(Done, Listed(base, file, defs))
  {
    var t := TablesOf(l.entries, base);
    FrontReads(mem, base, is64, l);
    SymbolsReadBack(mem, base, is64, l, defs);
    OffsetGrows(t.symtab, t.syment, |defs|, |defs|);
    assert |defs| < TWO_TO_64 <= Rounds(t.syment);
    WalkLists(ImageAt(mem, base), base, file, is64, t, defs, 0, Rounds(t.syment));
    assert defs[0..] == defs && Offset(t.symtab, t.syment, 0) == t.symtab;
  }

  /** ELF32 and ELF64 layouts of the same symbols give the same outcome and tracepoints. */
  lemma ClassIsInvisible(mem32: Memory, mem64: Memory, base: Word64, file: CString, l32: Layout, l64: Layout,
                         defs: seq<Definition>)
    requires LaidOut(mem32, base, false, l32, defs) && LaidOut(mem64, base, true, l64, defs)
    ensures Parse(mem32, base, file) == Parse(mem64, base, file)
  {
    LaidOutParses(mem32, base, file, false, l32, defs);
    LaidOutParses(mem64, base, file, true, l64, defs);
  }
}
