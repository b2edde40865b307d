/** module-elf.c: the ELF header, program header, dynamic section and symbol table of a mapped file. */
module ElfReader {
  import opened Words
  import opened GuestMemory
  import opened FunctionTable
  import opened ImageReading

  const NOWHERE: Word64 := TWO_TO_64 - 1
  const EHDR32_SIZE: nat := 52
  const PT_DYNAMIC := 2
  const DT_STRTAB := 5
  const DT_SYMTAB := 6
  const DT_STRSZ := 10
  const DT_SYMENT := 11
  const STT_FUNC := 2

  function WordOf(is64: bool): Width {
    if is64 then W64 else W32
  }

  // ----- header -----

  datatype Header = Header(is64: bool, phnum: Word64, phentsize: Word64, phoff: Word64)

  datatype HeaderRead = Unreadable | Foreign | Elf(header: Header)

  /** elf_check_ident */
  predicate GoodIdent(img: Image) {
    && img(0, W8) == Some(0x7f)
    && img(1, W8) == Some('E' as int)
    && img(2, W8) == Some('L' as int)
    && img(3, W8) == Some('F' as int)
    && img(5, W8) == Some(1)
    && img(6, W8) == Some(1)
  }

  predicate EhdrReadable(img: Image) {
    forall i: nat | i < EHDR32_SIZE :: img(i, W8).Some?
  }

  function HeaderFields(is64: bool): seq<Field> {
    if is64 then [Field(56, W16), Field(54, W16), Field(32, W64)]
    else [Field(44, W16), Field(42, W16), Field(28, W32)]
  }

  predicate Is64(img: Image) {
    img(4, W8) == Some(2)
  }

  function ReadHeader(img: Image): HeaderRead {
    if !EhdrReadable(img) then Unreadable
    else if !GoodIdent(img) then Foreign
    else match Loads(img, HeaderFields(Is64(img)))
      case None => Unreadable
      case Some(v) => Elf(Header(Is64(img), v[0], v[1], v[2]))
  }

  // ----- program headers -----

  datatype Segment = Segment(kind: Word64, offset: Word64, vaddr: Word64, filesz: Word64, memsz: Word64)

  function SegmentFields(is64: bool, off: Word64): seq<Field> {
    if is64 then [Field(off, W32), Field(off + 8, W64), Field(off + 16, W64), Field(off + 32, W64),
                  Field(off + 40, W64)]
    else [Field(off, W32), Field(off + 4, W32), Field(off + 8, W32), Field(off + 16, W32), Field(off + 20, W32)]
  }

  function SegmentAt(h: Header, i: nat): Word64 {
    Add64(h.phoff, i * h.phentsize)
  }

  function ReadSegment(img: Image, h: Header, i: nat): Option<Segment> {
    match Loads(img, SegmentFields(h.is64, SegmentAt(h, i)))
    case None => None
    case Some(v) => Some(Segment(v[0], v[1], v[2], v[3], v[4]))
  }

  datatype Dynamic = Dynamic(offset: Word64, vaddr: Word64, size: Word64)

  const NO_DYNAMIC := Dynamic(NOWHERE, NOWHERE, 1)

  function DynamicOf(s: Segment): Dynamic {
    Dynamic(s.offset, s.vaddr, if s.filesz == 0 then s.memsz else s.filesz)
  }

  function Note(d: Dynamic, s: Segment): Dynamic {
    if s.kind == PT_DYNAMIC then DynamicOf(s) else d
  }

  /** The program header loop from index i on: the last PT_DYNAMIC entry counts. */
  function FindDynamic(img: Image, h: Header, i: nat, d: Dynamic): Option<Dynamic>
    decreases h.phnum - i
  {
    if i >= h.phnum then Some(d)
    else match ReadSegment(img, h, i)
      case None => None
      case Some(s) => FindDynamic(img, h, i + 1, Note(d, s))
  }

  // ----- dynamic section -----

  datatype Tables = Tables(strtab: Word64, symtab: Word64, strsz: Word64, syment: Word64)

  /** An address the loader may already have relocated, as an offset from the image base. */
  function Unrelocated(val: Word64, base: Word64): Word64 {
    if val >= base then val - base else val
  }

  function Enter(t: Tables, e: Entry, base: Word64): Tables {
    if e.tag == DT_STRTAB then t.(strtab := Unrelocated(e.val, base))
    else if e.tag == DT_SYMTAB then t.(symtab := Unrelocated(e.val, base))
    else if e.tag == DT_STRSZ then t.(strsz := e.val)
    else if e.tag == DT_SYMENT then t.(syment := e.val)
    else t
  }

  function DynStep(is64: bool): nat {
    if is64 then 16 else 8
  }

  datatype Entry = Entry(tag: Word64, val: Word64)

  function EntryFields(is64: bool, vaddr: Word64, i: Word64): seq<Field> {
    [Field(vaddr + i, WordOf(is64)), Field(vaddr + i + if is64 then 8 else 4, WordOf(is64))]
  }

  function ReadEntry(img: Image, is64: bool, vaddr: Word64, i: Word64): Option<Entry> {
    match Loads(img, EntryFields(is64, vaddr, i))
    case None => None
    case Some(v) => Some(Entry(v[0], v[1]))
  }

  datatype TablesRead = Stopped(verdict: Verdict) | Complete(tables: Tables)

  /**
   The dynamic section loop from byte i on. Its counter is a multiple of a step that divides 2^64: where it would
   wrap around, it is back at the first entry, and the loop never ends.
   */
  function ReadTables(img: Image, base: Word64, is64: bool, d: Dynamic, i: Word64, t: Tables): TablesRead
    decreases d.size - i
  {
    if i >= d.size then Complete(t)
    else match ReadEntry(img, is64, d.vaddr, i)
      case None => Stopped(Retry)
      case Some(e) =>
        if i + DynStep(is64) >= TWO_TO_64 then Stopped(Endless)
        else ReadTables(img, base, is64, d, i + DynStep(is64), Enter(t, e, base))
  }

  predicate Usable(t: Tables) {
    t.strtab != 0 && t.symtab != 0 && t.strsz != 0 && t.syment != 0
  }

  // ----- symbol table -----

  datatype Symbol = Other | Function(value: Word64, name: seq<Byte>)

  function SymbolFields(is64: bool, s: Word64): seq<Field> {
    [Field(s, W32), Field(s + (if is64 then 8 else 4), WordOf(is64)), Field(s + (if is64 then 4 else 12), W8)]
  }

  function ReadSymbol(img: Image, is64: bool, strtab: Word64, s: Word64): Option<Symbol> {
    match Loads(img, SymbolFields(is64, s))
    case None => None
    case Some(v) =>
      if v[2] % 16 != STT_FUNC then Some(Other)
      else match ReadName(img, strtab + v[0], [])
        case None => None
        case Some(str) => Some(Function(v[1], str))
  }

  /** The function_add call for a symbol, where there is one. */
  function CallFor(base: Word64, file: CString, sym: Symbol): seq<Tracepoint> {
    match sym
    case Other => []
    case Function(value, name) => [Tracepoint(Add64(value, base), FullName(file, name))]
  }

  /** The function_add calls for one symbol; None when a byte of it is unreadable. */
  function SymbolCalls(img: Image, base: Word64, file: CString, is64: bool, strtab: Word64, s: Word64)
    : Option<seq<Tracepoint>>
  {
    match ReadSymbol(img, is64, strtab, s)
    case None => None
    case Some(sym) => Some(CallFor(base, file, sym))
  }

  function CallsAt(img: Image, base: Word64, file: CString, is64: bool, strtab: Word64): Calls {
    (s: Word64) => SymbolCalls(img, base, file, is64, strtab, s)
  }

  // ----- the whole attempt -----

  datatype Front = Ended(verdict: Verdict) | Ready(is64: bool, tables: Tables)

  /** Everything before the symbol table. */
  function ReadFront(img: Image, base: Word64): (r: Front)
    ensures r.Ready? ==> Usable(r.tables)
  {
    match ReadHeader(img)
    case Unreadable => Ended(Retry)
    case Foreign => Ended(Done)
    case Elf(h) =>
      match FindDynamic(img, h, 0, NO_DYNAMIC)
      case None => Ended(Retry)
      case Some(d) =>
        if d.offset == NOWHERE || d.vaddr == NOWHERE then Ended(Done)
        else match ReadTables(img, base, h.is64, d, 0, Tables(0, 0, 0, 0))
          case Stopped(v) => Ended(v)
          case Complete(t) => if Usable(t) then Ready(h.is64, t) else Ended(Done)
  }

  function Parse(mem: Memory, base: Word64, file: CString): Outcome {
    ParseImage(ImageAt(mem, base), base, file)
  }

  function ParseImage(img: Image, base: Word64, file: CString): Outcome {
    match ReadFront(img, base)
    case Ended(v) => Outcome(v, [])
    case Ready(is64, t) => Walk(CallsAt(img, base, file, is64, t.strtab), t.symtab, t.strtab, t.syment, [],
                                Rounds(t.syment))
  }

  // ----- the reader itself -----

  /** The program header loop. */
  method LoadDynamic(img: Image, h: Header) returns (r: Option<Dynamic>)
    ensures r == FindDynamic(img, h, 0, NO_DYNAMIC)
  {
    var i: nat, d := 0, NO_DYNAMIC;
    while i < h.phnum
      invariant i <= h.phnum
      invariant FindDynamic(img, h, 0, NO_DYNAMIC) == FindDynamic(img, h, i, d)
    {
      var s := ReadSegment(img, h, i);
      if s.None? {
        return None;
      }
      d, i := Note(d, s.value), i + 1;
    }
    return Some(d);
  }

  /** The dynamic section loop. */
  method LoadTables(img: Image, base: Word64, is64: bool, d: Dynamic) returns (r: TablesRead)
    ensures r == ReadTables(img, base, is64, d, 0, Tables(0, 0, 0, 0))
  {
    var i: Word64, t := 0, Tables(0, 0, 0, 0);
    while i < d.size
      invariant ReadTables(img, base, is64, d, 0, Tables(0, 0, 0, 0)) == ReadTables(img, base, is64, d, i, t)
    {
      var e := ReadEntry(img, is64, d.vaddr, i);
      if e.None? {
        return Stopped(Retry);
      }
      t := Enter(t, e.value, base);
      if i + DynStep(is64) >= TWO_TO_64 {
        return Stopped(Endless);
      }
      i := i + DynStep(is64);
    }
    return Complete(t);
  }

  /** parse_header_elf */
  method ParseHeaderElf(mem: Memory, base: Word64, file: CString, table: Functions) returns (verdict: Verdict)
    requires table.Valid()
    modifies table
    ensures verdict == Parse(mem, base, file).verdict
    ensures table.Valid() && table.calls == old(table.calls) + Parse(mem, base, file).added
  {
    var img := ImageAt(mem, base);
    var header := ReadHeader(img);
    if header.Unreadable? {
      return Retry;
    }
    if header.Foreign? {
      return Done;
    }
    var h := header.header;
    var dynamic := LoadDynamic(img, h);
    if dynamic.None? {
      return Retry;
    }
    var d := dynamic.value;
    if d.offset == NOWHERE || d.vaddr == NOWHERE {
      return Done;
    }
    var tables := LoadTables(img, base, h.is64, d);
    if tables.Stopped? {
      return tables.verdict;
    }
    var t := tables.tables;
    if !Usable(t) {
      return Done;
    }
    WalkAppends(CallsAt(img, base, file, h.is64, t.strtab), t.symtab, t.strtab, t.syment, table.calls,
                Rounds(t.syment));
    verdict := AddSymbols(img, base, file, h.is64, t, table);
  }

  /** The symbol table loop, adding tracepoints as it goes; `left` only serves to notice that it will never end. */
  method AddSymbols(img: Image, base: Word64, file: CString, is64: bool, t: Tables, table: Functions)
    returns (verdict: Verdict)
    requires table.Valid()
    modifies table
    ensures table.Valid()
    ensures Outcome(verdict, table.calls) ==
            Walk(CallsAt(img, base, file, is64, t.strtab), t.symtab, t.strtab, t.syment, old(table.calls),
                 Rounds(t.syment))
  {
    var s: Word64, left: nat := t.symtab, Rounds(t.syment);
    while s < t.strtab
      invariant table.Valid()
      invariant Walk(CallsAt(img, base, file, is64, t.strtab), s, t.strtab, t.syment, table.calls, left) ==
                Walk(CallsAt(img, base, file, is64, t.strtab), t.symtab, t.strtab, t.syment, old(table.calls),
                     Rounds(t.syment))
      decreases left
    {
      var ok := AddSymbol(img, base, file, is64, t, s, table, left);
      if !ok || left == 0 {
        return if ok then Endless else Retry;
      }
      s, left := Add64(s, t.syment), left - 1;
    }
    return Done;
  }

  /** The body of the symbol table loop. */
  method AddSymbol(img: Image, base: Word64, file: CString, is64: bool, t: Tables, s: Word64, table: Functions,
                   ghost left: nat)
    returns (ok: bool)
    requires table.Valid() && s < t.strtab
    modifies table
    ensures table.Valid()
    ensures Walk(CallsAt(img, base, file, is64, t.strtab), s, t.strtab, t.syment, old(table.calls), left) ==
            if !ok then Outcome(Retry, table.calls)
            else if left == 0 then Outcome(Endless, table.calls)
            else Walk(CallsAt(img, base, file, is64, t.strtab), Add64(s, t.syment), t.strtab, t.syment, table.calls,
                      left - 1)
  {
    var sym := LoadSymbol(img, is64, t.strtab, s);
    ok := sym.Some?;
    assert CallsAt(img, base, file, is64, t.strtab)(s) == if ok then Some(CallFor(base, file, sym.value)) else None;
    if ok {
      AddFunction(base, file, sym.value, table);
    }
  }

  method AddFunction(base: Word64, file: CString, sym: Symbol, table: Functions)
    requires table.Valid()
    modifies table
    ensures table.Valid() && table.calls == old(table.calls) + CallFor(base, file, sym)
  {
    if sym.Function? {
      table.Add(Add64(sym.value, base), FullName(file, sym.name));
    }
  }

  /** The fields of a symbol, and its name if it is a function. */
  method LoadSymbol(img: Image, is64: bool, strtab: Word64, s: Word64) returns (r: Option<Symbol>)
    ensures r == ReadSymbol(img, is64, strtab, s)
  {
    var v := Loads(img, SymbolFields(is64, s));
    if v.None? {
      return None;
    }
    if v.value[2] % 16 != STT_FUNC {
      return Some(Other);
    }
    var str := LoadName(img, strtab + v.value[0]);
    if str.None? {
      return None;
    }
    return Some(Function(v.value[1], str.value));
  }
}
