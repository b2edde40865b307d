/** ELF32 and ELF64 files written out, and read back by parse_header_elf. */
module ElfEncoding {
  import opened Words
  import opened GuestMemory
  import opened ImageReading
  import opened WalkProperties
  import opened BytesInImage
  import opened FileBytes
  import opened ElfReader
  import opened ElfLayout

  // ----- the encoder -----

  function Ident(is64: bool): seq<Byte> {
    [0x7f, 'E' as int, 'L' as int, 'F' as int, if is64 then 2 else 1, 1, 1]
  }

  function HeaderBytes(is64: bool, phoff: nat, phentsize: nat, phnum: nat): seq<Byte> {
    if is64 then
      Ident(true) + Zeros(25) + LittleEndian(phoff, W64) + Zeros(14) + LittleEndian(phentsize, W16)
      + LittleEndian(phnum, W16) + Zeros(6)
    else
      Ident(false) + Zeros(21) + LittleEndian(phoff, W32) + Zeros(10) + LittleEndian(phentsize, W16)
      + LittleEndian(phnum, W16) + Zeros(6)
  }

  function SegmentBytes(is64: bool, s: Segment): seq<Byte> {
    if is64 then
      LittleEndian(s.kind, W32) + Zeros(4) + LittleEndian(s.offset, W64) + LittleEndian(s.vaddr, W64) + Zeros(8)
      + LittleEndian(s.filesz, W64) + LittleEndian(s.memsz, W64) + Zeros(8)
    else
      LittleEndian(s.kind, W32) + LittleEndian(s.offset, W32) + LittleEndian(s.vaddr, W32) + Zeros(4)
      + LittleEndian(s.filesz, W32) + LittleEndian(s.memsz, W32) + Zeros(8)
  }

  function EntryBytes(is64: bool, e: Entry): seq<Byte> {
    LittleEndian(e.tag, WordOf(is64)) + LittleEndian(e.val, WordOf(is64))
  }

  function SymbolBytes(is64: bool, nameAt: nat, d: Definition): seq<Byte> {
    if is64 then LittleEndian(nameAt, W32) + [d.info] + Zeros(3) + LittleEndian(d.value, W64) + Zeros(8)
    else LittleEndian(nameAt, W32) + LittleEndian(d.value, W32) + Zeros(4) + [d.info] + Zeros(3)
  }

  lemma HeaderHas(is64: bool, phoff: nat, phentsize: nat, phnum: nat)
    ensures var h := HeaderBytes(is64, phoff, phentsize, phnum);
            && |h| == (if is64 then 64 else 52) && Has(h, 0, Ident(is64))
            && Has(h, if is64 then 32 else 28, LittleEndian(phoff, WordOf(is64)))
            && Has(h, if is64 then 54 else 42, LittleEndian(phentsize, W16))
            && Has(h, if is64 then 56 else 44, LittleEndian(phnum, W16))
  {}

  lemma SegmentHas(is64: bool, s: Segment)
    ensures var b := SegmentBytes(is64, s);
            && |b| == (if is64 then 56 else 32) && Has(b, 0, LittleEndian(s.kind, W32))
            && Has(b, if is64 then 8 else 4, LittleEndian(s.offset, WordOf(is64)))
            && Has(b, if is64 then 16 else 8, LittleEndian(s.vaddr, WordOf(is64)))
            && Has(b, if is64 then 32 else 16, LittleEndian(s.filesz, WordOf(is64)))
            && Has(b, if is64 then 40 else 20, LittleEndian(s.memsz, WordOf(is64)))
  {}

  lemma EntryHas(is64: bool, e: Entry)
    ensures var b := EntryBytes(is64, e);
            && |b| == DynStep(is64) && Has(b, 0, LittleEndian(e.tag, WordOf(is64)))
            && Has(b, if is64 then 8 else 4, LittleEndian(e.val, WordOf(is64)))
  {}

  lemma SymbolHas(is64: bool, nameAt: nat, d: Definition)
    ensures var b := SymbolBytes(is64, nameAt, d);
            && |b| == (if is64 then 24 else 16) && Has(b, 0, LittleEndian(nameAt, W32))
            && Has(b, if is64 then 8 else 4, LittleEndian(d.value, WordOf(is64)))
            && Has(b, if is64 then 4 else 12, LittleEndian(d.info, W8))
  {}

  // ----- the pieces in memory -----

  lemma StartReadable(f: seq<Byte>, base: Word64, h: seq<Byte>)
    requires base + |f| <= TWO_TO_64 && Has(f, 0, h) && EHDR32_SIZE <= |h|
    ensures forall i: nat :: i < EHDR32_SIZE ==> Read1(Loaded(f, base), base, i).Some?
  {
    HasInMemory(f, base, 0, h);
    forall i: nat | i < EHDR32_SIZE
      ensures Read1(Loaded(f, base), base, i).Some?
    {
      assert Read1(Loaded(f, base), base + 0, 0 + i) == Some(h[i]);
    }
  }

  lemma HeaderInMemory(f: seq<Byte>, base: Word64, is64: bool, l: Layout)
    requires base + |f| <= TWO_TO_64 && |l.segments| < 0x1_0000 && l.phentsize < 0x1_0000
             && (is64 || l.phoff < 0x1_0000_0000)
    requires Has(f, 0, HeaderBytes(is64, l.phoff, l.phentsize, |l.segments|))
    ensures HeaderLaid(Loaded(f, base), base, is64, l)
  {
    hide HeaderBytes, LittleEndian, Loaded, WordAt;
    var h := HeaderBytes(is64, l.phoff, l.phentsize, |l.segments|);
    HeaderHas(is64, l.phoff, l.phentsize, |l.segments|);
    StartReadable(f, base, h);
    HasWithin(f, 0, h, 0, Ident(is64));
    HasInMemory(f, base, 0, Ident(is64));
    HasWord(f, base, 0, h, if is64 then 32 else 28, WordOf(is64), l.phoff);
    HasWord(f, base, 0, h, if is64 then 54 else 42, W16, l.phentsize);
    HasWord(f, base, 0, h, if is64 then 56 else 44, W16, |l.segments|);
  }

  lemma SegmentInMemory(f: seq<Byte>, base: Word64, at: int, is64: bool, s: Segment)
    requires base + |f| <= TWO_TO_64 && Has(f, at, SegmentBytes(is64, s)) && s.kind < 0x1_0000_0000
    requires is64
             || (s.offset < 0x1_0000_0000 && s.vaddr < 0x1_0000_0000 && s.filesz < 0x1_0000_0000
                 && s.memsz < 0x1_0000_0000)
    ensures SegmentLaid(Loaded(f, base), base + at, is64, s)
  {
    hide SegmentBytes, LittleEndian, Loaded, Has, WordAt;
    var part, w := SegmentBytes(is64, s), WordOf(is64);
    SegmentHas(is64, s);
    HasWord(f, base, at, part, 0, W32, s.kind);
    HasWord(f, base, at, part, if is64 then 8 else 4, w, s.offset);
    HasWord(f, base, at, part, if is64 then 16 else 8, w, s.vaddr);
    HasWord(f, base, at, part, if is64 then 32 else 16, w, s.filesz);
    HasWord(f, base, at, part, if is64 then 40 else 20, w, s.memsz);
  }

  lemma EntryInMemory(f: seq<Byte>, base: Word64, at: int, is64: bool, e: Entry)
    requires base + |f| <= TWO_TO_64 && Has(f, at, EntryBytes(is64, e))
    requires is64 || (e.tag < 0x1_0000_0000 && e.val < 0x1_0000_0000)
    ensures EntryLaid(Loaded(f, base), base + at, is64, e)
  {
    EntryHas(is64, e);
    HasWord(f, base, at, EntryBytes(is64, e), 0, WordOf(is64), e.tag);
    HasWord(f, base, at, EntryBytes(is64, e), if is64 then 8 else 4, WordOf(is64), e.val);
  }

  lemma SymbolInMemory(f: seq<Byte>, base: Word64, at: int, is64: bool, nameAt: Word64, d: Definition)
    requires base + |f| <= TWO_TO_64 && Has(f, at, SymbolBytes(is64, nameAt, d))
    requires nameAt < 0x1_0000_0000 && (is64 || d.value < 0x1_0000_0000)
    ensures DefinitionLaid(Loaded(f, base), base + at, is64, nameAt, d)
  {
    hide SymbolBytes, LittleEndian, Loaded, Has, WordAt;
    var part := SymbolBytes(is64, nameAt, d);
    SymbolHas(is64, nameAt, d);
    HasWord(f, base, at, part, 0, W32, nameAt);
    HasWord(f, base, at, part, if is64 then 8 else 4, WordOf(is64), d.value);
    HasWord(f, base, at, part, if is64 then 4 else 12, W8, d.info);
  }

  // ----- whole files -----

  function HeaderSize(is64: bool): nat {
    if is64 then 64 else 52
  }

  function SegmentSize(is64: bool): nat {
    if is64 then 56 else 32
  }

  function SymbolSize(is64: bool): nat {
    if is64 then 24 else 16
  }

  function DynamicAt(is64: bool): nat {
    HeaderSize(is64) + SegmentSize(is64)
  }

  function SymbolsFrom(is64: bool): nat {
    DynamicAt(is64) + 4 * DynStep(is64)
  }

  function StringsFrom(is64: bool, n: nat): nat {
    SymbolsFrom(is64) + n * SymbolSize(is64)
  }

  /** The names, each with its NUL. */
  function Names(defs: seq<Definition>): seq<seq<Byte>> {
    seq(|defs|, i requires 0 <= i < |defs| => defs[i].name + [0])
  }

  /** The string table starts with an empty string. */
  function Strings(defs: seq<Definition>): seq<Byte> {
    [0] + Concat(Names(defs))
  }

  function NameOffset(defs: seq<Definition>, i: nat): nat
    requires i <= |defs|
  {
    1 + |Concat(Names(defs)[..i])|
  }

  function Symbols(is64: bool, defs: seq<Definition>): seq<seq<Byte>> {
    seq(|defs|, i requires 0 <= i < |defs| => SymbolBytes(is64, NameOffset(defs, i), defs[i]))
  }

  /** The whole file: header, one PT_DYNAMIC program header, four dynamic section entries, symbols and strings. */
  function Encode(is64: bool, defs: seq<Definition>): seq<Byte>
    requires FileSize(is64, defs) < 0x1_0000_0000
  {
    HeaderBytes(is64, HeaderSize(is64), SegmentSize(is64), 1) + SegmentBytes(is64, TheSegment(is64))
    + Concat(EntryParts(is64, defs)) + Concat(Symbols(is64, defs)) + Strings(defs)
  }

  function FileSize(is64: bool, defs: seq<Definition>): nat {
    StringsFrom(is64, |defs|) + |Strings(defs)|
  }

  function TheSegment(is64: bool): Segment {
    Segment(PT_DYNAMIC, DynamicAt(is64), DynamicAt(is64), 4 * DynStep(is64), 4 * DynStep(is64))
  }

  function TheEntries(is64: bool, defs: seq<Definition>): seq<Entry>
    requires FileSize(is64, defs) < 0x1_0000_0000
  {
    [Entry(DT_STRTAB, StringsFrom(is64, |defs|)), Entry(DT_SYMTAB, SymbolsFrom(is64)),
     Entry(DT_STRSZ, |Strings(defs)|), Entry(DT_SYMENT, SymbolSize(is64))]
  }

  function EntryParts(is64: bool, defs: seq<Definition>): seq<seq<Byte>>
    requires FileSize(is64, defs) < 0x1_0000_0000
  {
    seq(4, i requires 0 <= i < 4 => EntryBytes(is64, TheEntries(is64, defs)[i]))
  }

  /** The file can be written in this class, and fits below its own image base, as the loader places it. */
  ghost predicate Writable(is64: bool, base: Word64, defs: seq<Definition>) {
    && FileSize(is64, defs) < 0x1_0000_0000 && FileSize(is64, defs) <= base && base + FileSize(is64, defs) <= TWO_TO_64
    && forall i: nat :: i < |defs| ==> 0 !in defs[i].name && (is64 || defs[i].value < 0x1_0000_0000)
  }

  lemma {:induction false} NamesGrow(defs: seq<Definition>, i: nat)
    requires i < |defs|
    ensures NameOffset(defs, i) + |defs[i].name| + 1 <= |Strings(defs)|
    ensures Has(Strings(defs), NameOffset(defs, i), defs[i].name + [0])
  {
    var all := Concat(Names(defs));
    ConcatHas(Names(defs), i);
    assert Strings(defs)[1..] == all;
    assert Has(Strings(defs), 1, all);
    HasWithin(Strings(defs), 1, all, |Concat(Names(defs)[..i])|, defs[i].name + [0]);
  }

  lemma SymbolPart(is64: bool, defs: seq<Definition>, i: nat)
    requires i < |defs|
    ensures Has(Concat(Symbols(is64, defs)), i * SymbolSize(is64), SymbolBytes(is64, NameOffset(defs, i), defs[i]))
    ensures |Concat(Symbols(is64, defs))| == |defs| * SymbolSize(is64)
  {
    var parts := Symbols(is64, defs);
    forall p | p in parts
      ensures |p| == SymbolSize(is64)
    {
      var k :| 0 <= k < |parts| && parts[k] == p;
      SymbolHas(is64, NameOffset(defs, k), defs[k]);
    }
    ConcatSize(parts, SymbolSize(is64));
    ConcatSize(parts[..i], SymbolSize(is64));
    ConcatHas(parts, i);
  }

  lemma NoSymbols(is64: bool, defs: seq<Definition>)
    ensures |Concat(Symbols(is64, defs))| == |defs| * SymbolSize(is64)
  {
    if defs != [] {
      SymbolPart(is64, defs, 0);
    }
  }

  lemma EntryPart(is64: bool, defs: seq<Definition>, i: nat)
    requires FileSize(is64, defs) < 0x1_0000_0000 && i < 4
    ensures Has(Concat(EntryParts(is64, defs)), i * DynStep(is64), EntryBytes(is64, TheEntries(is64, defs)[i]))
    ensures |Concat(EntryParts(is64, defs))| == 4 * DynStep(is64)
  {
    var parts := EntryParts(is64, defs);
    forall p | p in parts
      ensures |p| == DynStep(is64)
    {
      var k :| 0 <= k < |parts| && parts[k] == p;
      EntryHas(is64, TheEntries(is64, defs)[k]);
    }
    ConcatSize(parts, DynStep(is64));
    ConcatSize(parts[..i], DynStep(is64));
    ConcatHas(parts, i);
  }

  lemma FileHas(is64: bool, defs: seq<Definition>)
    requires FileSize(is64, defs) < 0x1_0000_0000
    ensures var f := Encode(is64, defs);
            && |f| == FileSize(is64, defs)
            && Has(f, 0, HeaderBytes(is64, HeaderSize(is64), SegmentSize(is64), 1))
            && Has(f, HeaderSize(is64), SegmentBytes(is64, TheSegment(is64)))
            && Has(f, DynamicAt(is64), Concat(EntryParts(is64, defs)))
            && Has(f, SymbolsFrom(is64), Concat(Symbols(is64, defs)))
            && Has(f, StringsFrom(is64, |defs|), Strings(defs))
  {
    hide Has, HeaderBytes, SegmentBytes, Concat, EntryParts, Symbols;
    HeaderHas(is64, HeaderSize(is64), SegmentSize(is64), 1);
    SegmentHas(is64, TheSegment(is64));
    EntryPart(is64, defs, 0);
    NoSymbols(is64, defs);
    FiveParts(HeaderBytes(is64, HeaderSize(is64), SegmentSize(is64), 1), SegmentBytes(is64, TheSegment(is64)),
              Concat(EntryParts(is64, defs)), Concat(Symbols(is64, defs)), Strings(defs));
  }

  // ----- the file is laid out as the reader expects -----

  function NameAt(defs: seq<Definition>, i: nat): Word64
    requires i < |defs| && |Strings(defs)| < 0x1_0000_0000
  {
    NamesGrow(defs, i);
    NameOffset(defs, i)
  }

  function LayoutOf(is64: bool, defs: seq<Definition>): Layout
    requires FileSize(is64, defs) < 0x1_0000_0000
  {
    Layout(HeaderSize(is64), SegmentSize(is64), [TheSegment(is64)], 0, TheEntries(is64, defs),
           seq(|defs|, i requires 0 <= i < |defs| => NameAt(defs, i)))
  }

  /** The file in guest memory. */
  ghost function Written(is64: bool, base: Word64, defs: seq<Definition>): Memory
    requires Writable(is64, base, defs)
  {
    FileHas(is64, defs);
    Loaded(Encode(is64, defs), base)
  }

  lemma HeaderWritten(is64: bool, base: Word64, defs: seq<Definition>)
    requires Writable(is64, base, defs)
    ensures HeaderLaid(Written(is64, base, defs), base, is64, LayoutOf(is64, defs))
  {
    FileHas(is64, defs);
    HeaderInMemory(Encode(is64, defs), base, is64, LayoutOf(is64, defs));
  }

  lemma SegmentWritten(is64: bool, base: Word64, defs: seq<Definition>)
    requires Writable(is64, base, defs)
    ensures SegmentsLaid(Written(is64, base, defs), base, is64, LayoutOf(is64, defs))
  {
    hide SegmentLaid, SegmentBytes, Encode;
    FileHas(is64, defs);
    SegmentInMemory(Encode(is64, defs), base, HeaderSize(is64), is64, TheSegment(is64));
  }

  lemma EntryWritten(f: seq<Byte>, is64: bool, base: Word64, defs: seq<Definition>, i: nat)
    requires Writable(is64, base, defs) && base + |f| <= TWO_TO_64 && i < 4
    requires Has(f, DynamicAt(is64), Concat(EntryParts(is64, defs)))
    ensures EntryLaid(Loaded(f, base), base + DynamicAt(is64) + Offset(0, DynStep(is64), i), is64,
                      TheEntries(is64, defs)[i])
  {
    hide EntryLaid, EntryBytes, Concat;
    EntryPart(is64, defs, i);
    var e, table, at := TheEntries(is64, defs)[i], Concat(EntryParts(is64, defs)), i * DynStep(is64);
    HasWithin(f, DynamicAt(is64), table, at, EntryBytes(is64, e));
    EntryInMemory(f, base, DynamicAt(is64) + at, is64, e);
  }

  lemma DynamicComplete(mem: Memory, base: Word64, is64: bool, l: Layout)
    requires l.segments == [TheSegment(is64)] && l.dynamic == 0 && |l.entries| == 4
    requires forall i: nat :: i < |l.entries| ==>
                                EntryLaid(mem, base + DynamicAt(is64) + Offset(0, DynStep(is64), i), is64, l.entries[i])
    ensures DynamicLaid(mem, base, is64, l)
  {
    hide EntryLaid;
    assert DynamicOf(l.segments[0]) == DynamicOf(TheSegment(is64));
    TheSegmentHolds(is64);
  }

  lemma TheSegmentHolds(is64: bool)
    ensures var d := DynamicOf(TheSegment(is64));
            d.offset == d.vaddr == DynamicAt(is64) && d.size == Offset(0, DynStep(is64), 4)
  {}

  lemma DynamicWritten(f: seq<Byte>, is64: bool, base: Word64, defs: seq<Definition>)
    requires Writable(is64, base, defs) && base + |f| <= TWO_TO_64
    requires Has(f, DynamicAt(is64), Concat(EntryParts(is64, defs)))
    ensures DynamicLaid(Loaded(f, base), base, is64, LayoutOf(is64, defs))
  {
    var es := TheEntries(is64, defs);
    forall i: nat | i < 4
      ensures EntryLaid(Loaded(f, base), base + DynamicAt(is64) + Offset(0, DynStep(is64), i), is64, es[i])
    {
      EntryWritten(f, is64, base, defs, i);
    }
    DynamicComplete(Loaded(f, base), base, is64, LayoutOf(is64, defs));
  }

  lemma TablesWritten(is64: bool, base: Word64, defs: seq<Definition>)
    requires Writable(is64, base, defs)
    ensures TablesOf(TheEntries(is64, defs), base) ==
            Tables(StringsFrom(is64, |defs|), SymbolsFrom(is64), |Strings(defs)|, SymbolSize(is64))
  {
    var es := TheEntries(is64, defs);
    var es3, es2, es1 := [es[0], es[1], es[2]], [es[0], es[1]], [es[0]];
    LastOf(es3, es[3], DT_STRTAB);
    LastOf(es2, es[2], DT_STRTAB);
    LastOf(es1, es[1], DT_STRTAB);
    LastOf([], es[0], DT_STRTAB);
    LastOf(es3, es[3], DT_SYMTAB);
    LastOf(es2, es[2], DT_SYMTAB);
    LastOf(es1, es[1], DT_SYMTAB);
    LastOf(es3, es[3], DT_STRSZ);
    LastOf(es2, es[2], DT_STRSZ);
    LastOf(es3, es[3], DT_SYMENT);
    assert es == es3 + [es[3]] && es3 == es2 + [es[2]] && es2 == es1 + [es[1]] && es1 == [] + [es[0]];
  }

  lemma LastOf(es: seq<Entry>, e: Entry, tag: Word64)
    ensures LastVal(es + [e], tag) == if e.tag == tag then e.val else LastVal(es, tag)
  {
    assert (es + [e])[..|es|] == es;
  }

  lemma SymbolWritten(f: seq<Byte>, is64: bool, base: Word64, defs: seq<Definition>, i: nat)
    requires Writable(is64, base, defs) && base + |f| <= TWO_TO_64 && i < |defs|
    requires Has(f, SymbolsFrom(is64), Concat(Symbols(is64, defs)))
    ensures DefinitionLaid(Loaded(f, base), base + Offset(SymbolsFrom(is64), SymbolSize(is64), i), is64,
                           NameAt(defs, i), defs[i])
  {
    NamesGrow(defs, i);
    SymbolPart(is64, defs, i);
    var table, at := Concat(Symbols(is64, defs)), i * SymbolSize(is64);
    HasWithin(f, SymbolsFrom(is64), table, at, SymbolBytes(is64, NameAt(defs, i), defs[i]));
    SymbolInMemory(f, base, SymbolsFrom(is64) + at, is64, NameAt(defs, i), defs[i]);
  }

  lemma NameWritten(f: seq<Byte>, is64: bool, base: Word64, defs: seq<Definition>, i: nat)
    requires Writable(is64, base, defs) && base + |f| <= TWO_TO_64 && i < |defs|
    requires Has(f, StringsFrom(is64, |defs|), Strings(defs))
    ensures NameLaid(Loaded(f, base), base + StringsFrom(is64, |defs|) + NameAt(defs, i), defs[i].name)
  {
    NamesGrow(defs, i);
    HasWithin(f, StringsFrom(is64, |defs|), Strings(defs), NameOffset(defs, i), defs[i].name + [0]);
    HasInMemory(f, base, StringsFrom(is64, |defs|) + NameOffset(defs, i), defs[i].name + [0]);
  }

  lemma OffsetsRise(at: int, step: nat, i: nat, n: nat)
    requires i < n && 0 < step
    ensures Offset(at, step, i) < Offset(at, step, n)
  {
    assert n * step == i * step + (n - i) * step;
  }

  lemma SymbolsComplete(mem: Memory, base: Word64, is64: bool, l: Layout, defs: seq<Definition>, t: Tables)
    requires t == TablesOf(l.entries, base) && Usable(t) && |l.nameAt| == |defs|
    requires t.strtab == Offset(t.symtab, t.syment, |defs|)
    requires forall i: nat :: i < |defs| ==>
                                DefinitionLaid(mem, base + Offset(t.symtab, t.syment, i), is64, l.nameAt[i], defs[i])
    requires forall i: nat :: i < |defs| ==> NameLaid(mem, base + t.strtab + l.nameAt[i], defs[i].name)
    ensures SymbolsLaid(mem, base, is64, l, defs)
  {
    hide DefinitionLaid, NameLaid, TablesOf;
    forall i: nat | i < |defs|
      ensures Offset(t.symtab, t.syment, i) < t.strtab
    {
      OffsetsRise(t.symtab, t.syment, i, |defs|);
    }
  }

  lemma EachSymbolWritten(f: seq<Byte>, is64: bool, base: Word64, defs: seq<Definition>, l: Layout, t: Tables)
    requires Writable(is64, base, defs) && base + |f| <= TWO_TO_64 && l == LayoutOf(is64, defs)
    requires Has(f, SymbolsFrom(is64), Concat(Symbols(is64, defs))) && Has(f, StringsFrom(is64, |defs|), Strings(defs))
    requires t.symtab == SymbolsFrom(is64) && t.syment == SymbolSize(is64) && t.strtab == StringsFrom(is64, |defs|)
    ensures forall i: nat :: i < |defs| ==>
                               DefinitionLaid(Loaded(f, base), base + Offset(t.symtab, t.syment, i), is64,
                                              l.nameAt[i], defs[i])
    ensures forall i: nat :: i < |defs| ==> NameLaid(Loaded(f, base), base + t.strtab + l.nameAt[i], defs[i].name)
  {
    hide DefinitionLaid, NameLaid, Concat, Has, Loaded, Symbols, Strings;
    forall i: nat | i < |defs|
      ensures DefinitionLaid(Loaded(f, base), base + Offset(t.symtab, t.syment, i), is64, l.nameAt[i], defs[i])
      ensures NameLaid(Loaded(f, base), base + t.strtab + l.nameAt[i], defs[i].name)
    {
      SymbolWritten(f, is64, base, defs, i);
      NameWritten(f, is64, base, defs, i);
    }
  }

  lemma SymbolsWritten(f: seq<Byte>, is64: bool, base: Word64, defs: seq<Definition>)
    requires Writable(is64, base, defs) && base + |f| <= TWO_TO_64
    requires Has(f, SymbolsFrom(is64), Concat(Symbols(is64, defs))) && Has(f, StringsFrom(is64, |defs|), Strings(defs))
    ensures SymbolsLaid(Loaded(f, base), base, is64, LayoutOf(is64, defs), defs)
  {
    hide DefinitionLaid, NameLaid, Concat, Has, Loaded, Symbols;
    var t := TablesOf(TheEntries(is64, defs), base);
    TablesWritten(is64, base, defs);
    EachSymbolWritten(f, is64, base, defs, LayoutOf(is64, defs), t);
    SymbolsComplete(Loaded(f, base), base, is64, LayoutOf(is64, defs), defs, t);
  }

  /** Round trip: the file that is written, in either class, is read back as exactly its function symbols. */
  lemma EncodingParses(is64: bool, base: Word64, file: CString, defs: seq<Definition>)
    requires Writable(is64, base, defs)
    ensures Parse(Written(is64, base, defs), base, file) == Outcome(Done, Listed(base, file, defs))
  {
    var f := Encode(is64, defs);
    FileHas(is64, defs);
    HeaderWritten(is64, base, defs);
    SegmentWritten(is64, base, defs);
    DynamicWritten(f, is64, base, defs);
    SymbolsWritten(f, is64, base, defs);
    LaidOutParses(Written(is64, base, defs), base, file, is64, LayoutOf(is64, defs), defs);
  }
}
