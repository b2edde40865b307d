/** Independence of parse_header_elf from loader relocation. */
module ElfRelocation {
  import opened Words
  import opened GuestMemory
  import opened ImageReading
  import opened WalkProperties
  import opened ElfReader
  import opened ElfProperties

  // ----- what the relocation must leave alone: exactly the bytes that the attempt reads elsewhere -----

  /** No byte of this field is in `changed`. */
  ghost predicate FieldApart(base: Word64, f: Field, changed: set<Word64>) {
    Span(base + f.off, f.w.Bytes()) !! changed
  }

  /** The same for the fields of a sequence of loads, up to the first that is not readable. */
  ghost predicate FieldsApart(mem: Memory, base: Word64, fields: seq<Field>, changed: set<Word64>)
    decreases |fields|
  {
    fields == [] ||
    (FieldApart(base, fields[0], changed) &&
     (ImageAt(mem, base)(fields[0].off, fields[0].w).Some? ==> FieldsApart(mem, base, fields[1..], changed)))
  }

  lemma {:induction false} FieldsAgree(mem: Memory, mem': Memory, base: Word64, fields: seq<Field>,
                                       changed: set<Word64>)
    requires AgreeOutside(mem, mem', changed) && FieldsApart(mem, base, fields, changed)
    ensures Loads(ImageAt(mem', base), fields) == Loads(ImageAt(mem, base), fields)
    decreases |fields|
  {
    if fields != [] {
      ReadAgrees(mem, mem', changed, base + fields[0].off, fields[0].w);
      if ImageAt(mem, base)(fields[0].off, fields[0].w).Some? {
        FieldsAgree(mem, mem', base, fields[1..], changed);
      }
    }
  }

  /** The ELF header, and the fields that are loaded once it has been recognised. */
  ghost predicate HeaderApart(mem: Memory, base: Word64, changed: set<Word64>) {
    var img := ImageAt(mem, base);
    && Span(base, 52) !! changed
    && (EhdrReadable(img) && GoodIdent(img) ==> FieldsApart(mem, base, HeaderFields(Is64(img)), changed))
  }

  lemma HeaderAgrees(mem: Memory, mem': Memory, base: Word64, changed: set<Word64>)
    requires AgreeOutside(mem, mem', changed) && HeaderApart(mem, base, changed)
    ensures ReadHeader(ImageAt(mem', base)) == ReadHeader(ImageAt(mem, base))
  {
    var img, img' := ImageAt(mem, base), ImageAt(mem', base);
    forall i: nat | i < EHDR32_SIZE
      ensures img'(i, W8) == img(i, W8)
    {
      assert Add64(base, i) in Span(base, EHDR32_SIZE);
      assert Add64(base + i, 0) == Add64(base, i);
      ReadAgrees(mem, mem', changed, base + i, W8);
    }
    assert EhdrReadable(img') == EhdrReadable(img) && GoodIdent(img') == GoodIdent(img) && Is64(img') == Is64(img);
    if EhdrReadable(img) && GoodIdent(img) {
      FieldsAgree(mem, mem', base, HeaderFields(Is64(img)), changed);
    }
  }

  /** The program headers, up to the first that is not readable. */
  ghost predicate SegmentsApart(mem: Memory, base: Word64, h: Header, changed: set<Word64>) {
    forall i: nat :: i < h.phnum && (forall j: nat :: j < i ==> ReadSegment(ImageAt(mem, base), h, j).Some?) ==>
                       FieldsApart(mem, base, SegmentFields(h.is64, SegmentAt(h, i)), changed)
  }

  lemma {:induction false} DynamicAgrees(mem: Memory, mem': Memory, base: Word64, h: Header, i: nat, d: Dynamic,
                                         changed: set<Word64>)
    requires AgreeOutside(mem, mem', changed) && SegmentsApart(mem, base, h, changed)
    requires forall j: nat :: j < i ==> ReadSegment(ImageAt(mem, base), h, j).Some?
    ensures FindDynamic(ImageAt(mem', base), h, i, d) == FindDynamic(ImageAt(mem, base), h, i, d)
    decreases h.phnum - i
  {
    if i < h.phnum {
      FieldsAgree(mem, mem', base, SegmentFields(h.is64, SegmentAt(h, i)), changed);
      var s := ReadSegment(ImageAt(mem, base), h, i);
      if s.Some? {
        DynamicAgrees(mem, mem', base, h, i + 1, Note(d, s.value), changed);
      }
    }
  }

  /** The bytes of a symbol's name, through its NUL or up to the first that is not readable. */
  ghost predicate NameApart(mem: Memory, base: Word64, start: int, n: nat, changed: set<Word64>)
    requires n <= NAME_LIMIT
    decreases NAME_LIMIT - n
  {
    n == NAME_LIMIT ||
    (FieldApart(base, Field(start + n, W8), changed) &&
     (var v := ImageAt(mem, base)(start + n, W8);
      v.Some? && v.value % 256 != 0 ==> NameApart(mem, base, start, n + 1, changed)))
  }

  lemma {:induction false} NameAgrees(mem: Memory, mem': Memory, base: Word64, start: int, str: seq<Byte>,
                                      changed: set<Word64>)
    requires |str| <= NAME_LIMIT && AgreeOutside(mem, mem', changed) && NameApart(mem, base, start, |str|, changed)
    ensures ReadName(ImageAt(mem', base), start, str) == ReadName(ImageAt(mem, base), start, str)
    decreases NAME_LIMIT - |str|
  {
    if |str| < NAME_LIMIT {
      ReadAgrees(mem, mem', changed, base + (start + |str|), W8);
      var v := ImageAt(mem, base)(start + |str|, W8);
      if v.Some? && v.value % 256 != 0 {
        NameAgrees(mem, mem', base, start, str + [v.value % 256], changed);
      }
    }
  }

  /** The fields of the symbol at offset s, and its name if it is a function. */
  ghost predicate SymbolApart(mem: Memory, base: Word64, is64: bool, strtab: Word64, s: Word64, changed: set<Word64>) {
    && FieldsApart(mem, base, SymbolFields(is64, s), changed)
    && match Loads(ImageAt(mem, base), SymbolFields(is64, s))
       case Some(v) => v[2] % 16 == 2 ==> NameApart(mem, base, strtab + v[0], 0, changed)
       case None => true
  }

  lemma SymbolAgrees(mem: Memory, mem': Memory, base: Word64, changed: set<Word64>, is64: bool, strtab: Word64,
                     s: Word64)
    requires AgreeOutside(mem, mem', changed) && SymbolApart(mem, base, is64, strtab, s, changed)
    ensures ReadSymbol(ImageAt(mem', base), is64, strtab, s) == ReadSymbol(ImageAt(mem, base), is64, strtab, s)
  {
    hide Loads, ImageAt, AgreeOutside, NameApart, FieldsApart, ReadName;
    FieldsAgree(mem, mem', base, SymbolFields(is64, s), changed);
    var v := Loads(ImageAt(mem, base), SymbolFields(is64, s));
    if v.Some? && v.value[2] % 16 == 2 {
      NameAgrees(mem, mem', base, strtab + v.value[0], [], changed);
    }
  }

  /** The symbols that the loop reaches. */
  ghost predicate SymbolsApart(mem: Memory, base: Word64, is64: bool, t: Tables, changed: set<Word64>) {
    var calls := CallsAt(ImageAt(mem, base), base, Null, is64, t.strtab);
    forall k: nat :: Reaches(calls, t.symtab, t.strtab, t.syment, k) ==>
                       SymbolApart(mem, base, is64, t.strtab, SymbolAt(t, k), changed)
  }

  /** The bytes a relocation may rewrite: none that the attempt reads outside the dynamic section. */
  ghost predicate Apart(mem: Memory, base: Word64, changed: set<Word64>) {
    var img := ImageAt(mem, base);
    && HeaderApart(mem, base, changed)
    && (match ReadHeader(img)
        case Elf(h) => SegmentsApart(mem, base, h, changed)
        case _ => true)
    && (match ReadFront(img, base)
        case Ready(is64, t) => SymbolsApart(mem, base, is64, t, changed)
        case Ended(_) => true)
  }

  // ----- what the relocation does -----

  /** Entry i reads as before, or is an address of the string or symbol table that the loader has relocated. */
  ghost predicate EntryRelocated(img: Image, img': Image, base: Word64, is64: bool, d: Dynamic, i: Word64) {
    var e, e' := ReadEntry(img, is64, d.vaddr, i), ReadEntry(img', is64, d.vaddr, i);
    e' == e ||
    (e.Some? && e.value.tag in {5, 6} && e.value.val + base < TWO_TO_64 && e.value.val < base
     && e' == Some(Entry(e.value.tag, e.value.val + base)))
  }

  /** The dynamic section loop gets as far as byte i. */
  ghost predicate ReachesEntry(img: Image, is64: bool, d: Dynamic, start: Word64, i: Word64) {
    && OnGrid(start, d.size, DynStep(is64), i)
    && forall j: Word64 :: OnGrid(start, d.size, DynStep(is64), j) && j < i ==> ReadEntry(img, is64, d.vaddr, j).Some?
  }

  lemma {:induction false} TablesRelocated(img: Image, img': Image, base: Word64, is64: bool, d: Dynamic, i: Word64,
                                           t: Tables)
    requires forall j :: ReachesEntry(img, is64, d, i, j) ==> EntryRelocated(img, img', base, is64, d, j)
    ensures ReadTables(img', base, is64, d, i, t) == ReadTables(img, base, is64, d, i, t)
    decreases d.size - i
  {
    var step := DynStep(is64);
    if i < d.size {
      assert Offset(i, step, 0) == i && OnGrid(i, d.size, step, i);
      forall y | OnGrid(i, d.size, step, y)
        ensures i <= y
      {
        GridIsBounded(i, d.size, step, y);
      }
      assert ReachesEntry(img, is64, d, i, i);
      assert EntryRelocated(img, img', base, is64, d, i);
      var e := ReadEntry(img, is64, d.vaddr, i);
      if e.Some? && i + step < TWO_TO_64 {
        var next: Word64 := i + step;
        forall j
          ensures OnGrid(i, d.size, step, j) <==> j == i || OnGrid(next, d.size, step, j)
        {
          GridStep(i, next, d.size, step, j);
        }
        assert forall j :: ReachesEntry(img, is64, d, next, j) ==> ReachesEntry(img, is64, d, i, j);
        TablesRelocated(img, img', base, is64, d, next, Enter(t, e.value, base));
      }
    }
  }

  /** Every dynamic section entry that the attempt reads, reads as before or has been relocated. */
  ghost predicate DynamicRelocated(mem: Memory, mem': Memory, base: Word64) {
    var img, img' := ImageAt(mem, base), ImageAt(mem', base);
    match ReadHeader(img)
    case Elf(h) =>
      (match FindDynamic(img, h, 0, NO_DYNAMIC)
       case Some(d) => forall i :: ReachesEntry(img, h.is64, d, 0, i) ==> EntryRelocated(img, img', base, h.is64, d, i)
       case None => true)
    case _ => true
  }

  /**
   The loader may or may not have relocated each DT_STRTAB and DT_SYMTAB address: the outcome and the
   tracepoints are the same.
   */
  lemma RelocationIsInvisible(mem: Memory, mem': Memory, base: Word64, file: CString, changed: set<Word64>)
    requires AgreeOutside(mem, mem', changed) && Apart(mem, base, changed) && DynamicRelocated(mem, mem', base)
    ensures Parse(mem', base, file) == Parse(mem, base, file)
  {
    hide HeaderApart, SegmentsApart, AgreeOutside, ReadFront, SymbolApart, ReadSymbol, DynamicRelocated;
    var img, img' := ImageAt(mem, base), ImageAt(mem', base);
    FrontAgrees(mem, mem', base, changed);
    match ReadFront(img, base)
    case Ended(_) =>
    case Ready(is64, t) =>
      var calls, calls' := CallsAt(img, base, file, is64, t.strtab), CallsAt(img', base, file, is64, t.strtab);
      forall k: nat | Reaches(calls, t.symtab, t.strtab, t.syment, k)
        ensures calls'(Visit(t.symtab, t.syment, k)) == calls(Visit(t.symtab, t.syment, k))
      {
        ReachesAnyway(img, base, file, is64, t, k);
        SymbolAgrees(mem, mem', base, changed, is64, t.strtab, SymbolAt(t, k));
      }
      WalkReached(calls, calls', t.symtab, t.strtab, t.syment, [], Rounds(t.syment));
  }

  /** How far the loop gets does not depend on the file's name. */
  lemma ReachesAnyway(img: Image, base: Word64, file: CString, is64: bool, t: Tables, k: nat)
    requires Reaches(CallsAt(img, base, file, is64, t.strtab), t.symtab, t.strtab, t.syment, k)
    ensures Reaches(CallsAt(img, base, Null, is64, t.strtab), t.symtab, t.strtab, t.syment, k)
  {
    var calls, calls' := CallsAt(img, base, file, is64, t.strtab), CallsAt(img, base, Null, is64, t.strtab);
    forall y: Word64
      ensures calls(y).Some? <==> calls'(y).Some?
    {
      assert calls(y) == SymbolCalls(img, base, file, is64, t.strtab, y);
      assert calls'(y) == SymbolCalls(img, base, Null, is64, t.strtab, y);
    }
  }

  lemma FrontAgrees(mem: Memory, mem': Memory, base: Word64, changed: set<Word64>)
    requires AgreeOutside(mem, mem', changed) && Apart(mem, base, changed) && DynamicRelocated(mem, mem', base)
    ensures ReadFront(ImageAt(mem', base), base) == ReadFront(ImageAt(mem, base), base)
  {
    var img, img' := ImageAt(mem, base), ImageAt(mem', base);
    HeaderAgrees(mem, mem', base, changed);
    match ReadHeader(img)
    case Elf(h) =>
      DynamicAgrees(mem, mem', base, h, 0, NO_DYNAMIC, changed);
      var d := FindDynamic(img, h, 0, NO_DYNAMIC);
      if d.Some? {
        TablesRelocated(img, img', base, h.is64, d.value, 0, Tables(0, 0, 0, 0));
      }
    case _ =>
  }
}
