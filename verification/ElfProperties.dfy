/** What parse_header_elf promises over memories that become more readable, and the function table it leaves. */
module ElfProperties {
  import opened Words
  import opened GuestMemory
  import opened FunctionTable
  import opened ImageReading
  import opened WalkProperties
  import opened ElfReader

  // ----- memories that become more readable -----

  lemma {:induction false} DynamicRefines(img: Image, img': Image, h: Header, i: nat, d: Dynamic)
    requires Refines(img, img')
    ensures FindDynamic(img, h, i, d).Some? ==> FindDynamic(img', h, i, d) == FindDynamic(img, h, i, d)
    decreases h.phnum - i
  {
    if i < h.phnum && ReadSegment(img, h, i).Some? {
      LoadsRefine(img, img', SegmentFields(h.is64, SegmentAt(h, i)));
      DynamicRefines(img, img', h, i + 1, Note(d, ReadSegment(img, h, i).value));
    }
  }

  lemma {:induction false} TablesRefine(img: Image, img': Image, base: Word64, is64: bool, d: Dynamic, i: Word64,
                                        t: Tables)
    requires Refines(img, img')
    ensures ReadTables(img, base, is64, d, i, t) != Stopped(Retry) ==>
              ReadTables(img', base, is64, d, i, t) == ReadTables(img, base, is64, d, i, t)
    decreases d.size - i
  {
    if i < d.size {
      LoadsRefine(img, img', EntryFields(is64, d.vaddr, i));
      if ReadEntry(img, is64, d.vaddr, i).Some? && i + DynStep(is64) < TWO_TO_64 {
        TablesRefine(img, img', base, is64, d, i + DynStep(is64),
                     Enter(t, ReadEntry(img, is64, d.vaddr, i).value, base));
      }
    }
  }

  lemma SymbolRefines(img: Image, img': Image, is64: bool, strtab: Word64, s: Word64)
    requires Refines(img, img')
    ensures ReadSymbol(img, is64, strtab, s).Some? ==>
            ReadSymbol(img', is64, strtab, s) == ReadSymbol(img, is64, strtab, s)
  {
    hide Loads, ReadName, Refines;
    var v := Loads(img, SymbolFields(is64, s));
    LoadsRefine(img, img', SymbolFields(is64, s));
    if v.Some? {
      NameRefines(img, img', strtab + v.value[0], []);
    }
  }

  lemma FrontRefines(img: Image, img': Image, base: Word64)
    requires Refines(img, img')
    ensures ReadFront(img, base) != Ended(Retry) ==> ReadFront(img', base) == ReadFront(img, base)
  {
    var header := ReadHeader(img);
    LoadsRefine(img, img', HeaderFields(Is64(img)));
    if header.Elf? {
      assert ReadHeader(img') == header;
      DynamicRefines(img, img', header.header, 0, NO_DYNAMIC);
      var d := FindDynamic(img, header.header, 0, NO_DYNAMIC);
      if d.Some? {
        TablesRefine(img, img', base, header.header.is64, d.value, 0, Tables(0, 0, 0, 0));
      }
    } else if header.Foreign? {
      assert ReadHeader(img') == header;
    }
  }

  /**
   A more readable memory: an attempt that failed had added a prefix of what the new attempt adds,
   and an attempt that did not fail is repeated exactly.
   */
  lemma ParseExtends(mem: Memory, mem': Memory, base: Word64, file: CString)
    requires Extends(mem, mem')
    ensures Parse(mem, base, file).added <= Parse(mem', base, file).added
    ensures Parse(mem, base, file).verdict != Retry ==> Parse(mem', base, file) == Parse(mem, base, file)
  {
    hide ReadFront, Extends, ReadSymbol;
    var img, img' := ImageAt(mem, base), ImageAt(mem', base);
    ImagesRefine(mem, mem', base);
    FrontRefines(img, img', base);
    match ReadFront(img, base)
    case Ended(_) =>
    case Ready(is64, t) =>
      var calls, calls' := CallsAt(img, base, file, is64, t.strtab), CallsAt(img', base, file, is64, t.strtab);
      forall x: Word64
        ensures calls(x).Some? ==> calls'(x) == calls(x)
      {
        SymbolRefines(img, img', is64, t.strtab, x);
      }
      WalkRefines(calls, calls', t.symtab, t.strtab, t.syment, [], Rounds(t.syment));
  }

  /**
   Retries converge: any number of earlier attempts on less readable memories, with other modules'
   tracepoints in between, leave no trace once the last attempt has run.
   */
  lemma RetriesConverge(t: Entries, mems: seq<Memory>, others: seq<seq<Tracepoint>>, last: Memory, base: Word64,
                        file: CString)
    requires |mems| == |others|
    requires forall i :: 0 <= i < |mems| ==> Extends(mems[i], last)
    ensures var tries := seq(|mems|, i requires 0 <= i < |mems| => Parse(mems[i], base, file).added);
            Record(Attempts(t, tries, others), Parse(last, base, file).added) ==
            Record(OthersOnly(t, others), Parse(last, base, file).added)
  {
    var tries := seq(|mems|, i requires 0 <= i < |mems| => Parse(mems[i], base, file).added);
    forall i | 0 <= i < |tries|
      ensures tries[i] <= Parse(last, base, file).added
    {
      ParseExtends(mems[i], last, base, file);
    }
    TriesAreAbsorbed(t, tries, others, Parse(last, base, file).added);
  }

  // ----- which program header and which dynamic entries count -----

  ghost predicate IsDynamic(img: Image, h: Header, i: nat) {
    ReadSegment(img, h, i).Some? && ReadSegment(img, h, i).value.kind == 2
  }

  /** Program header k is the last PT_DYNAMIC one. */
  ghost predicate LastDynamic(img: Image, h: Header, i: nat, k: nat) {
    i <= k < h.phnum && IsDynamic(img, h, k) && forall j: nat :: k < j < h.phnum ==> !IsDynamic(img, h, j)
  }

  /** d is what the last PT_DYNAMIC header from i on says, or `none` when there is no such header. */
  ghost predicate DynamicFrom(img: Image, h: Header, i: nat, none: Dynamic, d: Dynamic) {
    || (exists k: nat :: LastDynamic(img, h, i, k) && d == DynamicOf(ReadSegment(img, h, k).value))
    || (d == none && forall j: nat :: i <= j < h.phnum ==> !IsDynamic(img, h, j))
  }

  lemma DynamicFromNext(img: Image, h: Header, i: nat, none: Dynamic, d: Dynamic)
    requires i < h.phnum && ReadSegment(img, h, i).Some?
    ensures DynamicFrom(img, h, i, none, d) <==>
            DynamicFrom(img, h, i + 1, Note(none, ReadSegment(img, h, i).value), d)
  {
    if k: nat :| LastDynamic(img, h, i, k) && d == DynamicOf(ReadSegment(img, h, k).value) {
      assert k > i ==> LastDynamic(img, h, i + 1, k);
    }
    if k: nat :| LastDynamic(img, h, i + 1, k) && d == DynamicOf(ReadSegment(img, h, k).value) {
      assert LastDynamic(img, h, i, k);
    }
    if IsDynamic(img, h, i) && forall j: nat :: i + 1 <= j < h.phnum ==> !IsDynamic(img, h, j) {
      assert LastDynamic(img, h, i, i);
    }
  }

  /** The program header loop succeeds exactly when all headers are readable, and the last PT_DYNAMIC one counts. */
  lemma {:induction false} FindDynamicExact(img: Image, h: Header, i: nat, none: Dynamic, d: Dynamic)
    requires i <= h.phnum
    ensures FindDynamic(img, h, i, none) == Some(d) <==>
            (forall j: nat :: i <= j < h.phnum ==> ReadSegment(img, h, j).Some?) && DynamicFrom(img, h, i, none, d)
    decreases h.phnum - i
  {
    if i < h.phnum && ReadSegment(img, h, i).Some? {
      DynamicFromNext(img, h, i, none, d);
      FindDynamicExact(img, h, i + 1, Note(none, ReadSegment(img, h, i).value), d);
    }
  }

  /** The entry at byte k of the dynamic section has this tag. */
  ghost predicate HasTag(img: Image, is64: bool, d: Dynamic, tag: Word64, k: Word64) {
    ReadEntry(img, is64, d.vaddr, k).Some? && ReadEntry(img, is64, d.vaddr, k).value.tag == tag
  }

  ghost predicate LastEntry(img: Image, is64: bool, d: Dynamic, i: Word64, tag: Word64, k: Word64) {
    && OnGrid(i, d.size, DynStep(is64), k) && HasTag(img, is64, d, tag, k)
    && forall j :: OnGrid(i, d.size, DynStep(is64), j) && k < j ==> !HasTag(img, is64, d, tag, j)
  }

  function Meaning(tag: Word64, val: Word64, base: Word64): Word64 {
    if tag in {5, 6} && base <= val then val - base else val
  }

  /** v is what the last entry with this tag says, or `none` when there is no such entry. */
  ghost predicate ValueFrom(img: Image, base: Word64, is64: bool, d: Dynamic, i: Word64, tag: Word64, none: Word64,
                            v: Word64) {
    || (exists k :: LastEntry(img, is64, d, i, tag, k)
                    && v == Meaning(tag, ReadEntry(img, is64, d.vaddr, k).value.val, base))
    || (v == none && forall k :: OnGrid(i, d.size, DynStep(is64), k) ==> !HasTag(img, is64, d, tag, k))
  }

  /** Each of the four table values is what the last entry with its tag says. */
  ghost predicate TablesFrom(img: Image, base: Word64, is64: bool, d: Dynamic, i: Word64, none: Tables, t: Tables) {
    && ValueFrom(img, base, is64, d, i, 5, none.strtab, t.strtab)
    && ValueFrom(img, base, is64, d, i, 6, none.symtab, t.symtab)
    && ValueFrom(img, base, is64, d, i, 10, none.strsz, t.strsz)
    && ValueFrom(img, base, is64, d, i, 11, none.syment, t.syment)
  }

  lemma ValueFromNext(img: Image, base: Word64, is64: bool, d: Dynamic, i: Word64, tag: Word64, none: Word64, v: Word64)
    requires i < d.size && i + DynStep(is64) < TWO_TO_64 && ReadEntry(img, is64, d.vaddr, i).Some?
    ensures var e := ReadEntry(img, is64, d.vaddr, i).value;
            ValueFrom(img, base, is64, d, i, tag, none, v) <==>
            ValueFrom(img, base, is64, d, i + DynStep(is64), tag,
                      if e.tag == tag then Meaning(tag, e.val, base) else none, v)
  {
    var next: Word64 := i + DynStep(is64);
    forall k
      ensures OnGrid(i, d.size, DynStep(is64), k) <==> k == i || OnGrid(next, d.size, DynStep(is64), k)
      ensures OnGrid(next, d.size, DynStep(is64), k) ==> i < k
    {
      GridStep(i, next, d.size, DynStep(is64), k);
    }
    forall k | k != i
      ensures LastEntry(img, is64, d, i, tag, k) <==> LastEntry(img, is64, d, next, tag, k)
    {}
    if HasTag(img, is64, d, tag, i)
       && forall k :: OnGrid(next, d.size, DynStep(is64), k) ==> !HasTag(img, is64, d, tag, k) {
      assert LastEntry(img, is64, d, i, tag, i);
    }
  }

  lemma TablesFromNext(img: Image, base: Word64, is64: bool, d: Dynamic, i: Word64, none: Tables, t: Tables)
    requires i < d.size && i + DynStep(is64) < TWO_TO_64 && ReadEntry(img, is64, d.vaddr, i).Some?
    ensures TablesFrom(img, base, is64, d, i, none, t) <==>
            TablesFrom(img, base, is64, d, i + DynStep(is64),
                       Enter(none, ReadEntry(img, is64, d.vaddr, i).value, base), t)
  {
    ValueFromNext(img, base, is64, d, i, 5, none.strtab, t.strtab);
    ValueFromNext(img, base, is64, d, i, 6, none.symtab, t.symtab);
    ValueFromNext(img, base, is64, d, i, 10, none.strsz, t.strsz);
    ValueFromNext(img, base, is64, d, i, 11, none.syment, t.syment);
  }

  /** Every entry from byte i on is readable, and the counter does not wrap after any of them. */
  ghost predicate EntriesReadable(img: Image, is64: bool, d: Dynamic, i: Word64) {
    forall k: Word64 :: OnGrid(i, d.size, DynStep(is64), k) ==>
                          ReadEntry(img, is64, d.vaddr, k).Some? && k + DynStep(is64) < TWO_TO_64
  }

  lemma NoEntries(img: Image, base: Word64, is64: bool, d: Dynamic, i: Word64, none: Tables, t: Tables)
    requires i >= d.size
    ensures EntriesReadable(img, is64, d, i) && (TablesFrom(img, base, is64, d, i, none, t) <==> t == none)
  {
    forall k
      ensures !OnGrid(i, d.size, DynStep(is64), k)
    {
      if OnGrid(i, d.size, DynStep(is64), k) {
        GridIsBounded(i, d.size, DynStep(is64), k);
      }
    }
  }

  lemma ReadableNext(img: Image, is64: bool, d: Dynamic, i: Word64)
    requires i < d.size
    ensures EntriesReadable(img, is64, d, i) <==>
            && ReadEntry(img, is64, d.vaddr, i).Some? && i + DynStep(is64) < TWO_TO_64
            && EntriesReadable(img, is64, d, i + DynStep(is64))
  {
    var step := DynStep(is64);
    assert Offset(i, step, 0) == i && OnGrid(i, d.size, step, i);
    if i + step < TWO_TO_64 {
      forall k
        ensures OnGrid(i, d.size, step, k) <==> k == i || OnGrid(i + step, d.size, step, k)
      {
        GridStep(i, i + step, d.size, step, k);
      }
    }
  }

  /** The dynamic section loop succeeds exactly when all entries are readable, and the last entry of each tag counts. */
  lemma {:induction false} ReadTablesExact(img: Image, base: Word64, is64: bool, d: Dynamic, i: Word64, none: Tables,
                                           t: Tables)
    ensures ReadTables(img, base, is64, d, i, none) == Complete(t) <==>
            EntriesReadable(img, is64, d, i) && TablesFrom(img, base, is64, d, i, none, t)
    decreases d.size - i
  {
    hide EntriesReadable, TablesFrom, ReadEntry, Enter;
    if i >= d.size {
      NoEntries(img, base, is64, d, i, none, t);
    } else {
      ReadableNext(img, is64, d, i);
      var e := ReadEntry(img, is64, d.vaddr, i);
      if e.Some? && i + DynStep(is64) < TWO_TO_64 {
        TablesFromNext(img, base, is64, d, i, none, t);
        ReadTablesExact(img, base, is64, d, i + DynStep(is64), Enter(none, e.value, base), t);
      }
    }
  }

  /** The entries with offsets from i on are readable, and so many that the counter wraps around among them. */
  ghost predicate NoEndFrom(img: Image, is64: bool, d: Dynamic, i: Word64) {
    && TWO_TO_64 - DynStep(is64) < d.size
    && forall s: Word64 :: i <= s < d.size && s % DynStep(is64) == 0 ==> ReadEntry(img, is64, d.vaddr, s).Some?
  }

  lemma NoEndNext(img: Image, is64: bool, d: Dynamic, i: Word64)
    requires i % DynStep(is64) == 0 && i < d.size && i + DynStep(is64) < TWO_TO_64
    ensures NoEndFrom(img, is64, d, i) <==>
            ReadEntry(img, is64, d.vaddr, i).Some? && NoEndFrom(img, is64, d, i + DynStep(is64))
  {
    hide ReadEntry;
    forall s: Word64 | s % DynStep(is64) == 0 && i < s
      ensures i + DynStep(is64) <= s
    {
      NextEntry(is64, i, s);
    }
  }

  lemma NextEntry(is64: bool, i: Word64, s: Word64)
    requires i % DynStep(is64) == 0 && s % DynStep(is64) == 0 && i < s
    ensures i + DynStep(is64) <= s
  {
    if is64 {
      assert i % 16 == 0 && s % 16 == 0;
    } else {
      assert i % 8 == 0 && s % 8 == 0;
    }
  }

  /** The loop ends up at a wrapped counter exactly when the section is that long and all its entries are readable. */
  lemma {:induction false} EndlessExactly(img: Image, base: Word64, is64: bool, d: Dynamic, i: Word64, t: Tables)
    requires i % DynStep(is64) == 0
    ensures ReadTables(img, base, is64, d, i, t) == Stopped(Endless) <==> NoEndFrom(img, is64, d, i)
    decreases d.size - i
  {
    var step := DynStep(is64);
    if i < d.size {
      if i + step < TWO_TO_64 {
        NoEndNext(img, is64, d, i);
        var e := ReadEntry(img, is64, d.vaddr, i);
        if e.Some? {
          EndlessExactly(img, base, is64, d, i + step, Enter(t, e.value, base));
        }
      } else {
        assert i == TWO_TO_64 - step;
      }
    }
  }

  /**
   Once the counter of the dynamic section loop has wrapped around, the loop never ends: in each round k, before and
   after the wrap, the counter is inside the section and its entry is readable, and the same entries come back.
   */
  lemma TablesComeBack(img: Image, base: Word64, is64: bool, d: Dynamic, t: Tables, k: nat)
    requires ReadTables(img, base, is64, d, 0, t) == Stopped(Endless)
    ensures var step := DynStep(is64);
            && Visit(0, step, k) < d.size && ReadEntry(img, is64, d.vaddr, Visit(0, step, k)).Some?
            && Visit(0, step, k + TWO_TO_64 / step) == Visit(0, step, k)
  {
    EndlessExactly(img, base, is64, d, 0, t);
    RoundsAlign(is64, k);
  }

  lemma RoundsAlign(is64: bool, k: nat)
    ensures var step := DynStep(is64);
            && Visit(0, step, k) % step == 0 && Visit(0, step, k) <= TWO_TO_64 - step
            && Visit(0, step, k + TWO_TO_64 / step) == Visit(0, step, k)
  {
    hide Visit;
    if is64 {
      SixteenthsWrap(k);
    } else {
      EighthsWrap(k);
    }
  }

  lemma SixteenthsWrap(k: nat)
    ensures var v := Visit(0, 16, k); v % 16 == 0 && v <= TWO_TO_64 - 16 && Visit(0, 16, k + TWO_TO_64 / 16) == v
  {
    var q := k * 16 / TWO_TO_64;
    assert Visit(0, 16, k) == 16 * (k - q * 0x1000_0000_0000_0000);
    WrapsOnce(k * 16);
  }

  lemma EighthsWrap(k: nat)
    ensures var v := Visit(0, 8, k); v % 8 == 0 && v <= TWO_TO_64 - 8 && Visit(0, 8, k + TWO_TO_64 / 8) == v
  {
    var q := k * 8 / TWO_TO_64;
    assert Visit(0, 8, k) == 8 * (k - q * 0x2000_0000_0000_0000);
    WrapsOnce(k * 8);
  }

  lemma WrapsOnce(x: nat)
    ensures Add64(0, x + TWO_TO_64) == Add64(0, x)
  {}

  // ----- the exact function table -----

  /** The offset of the k-th symbol that the loop visits. */
  function SymbolAt(t: Tables, k: nat): Word64 {
    Visit(t.symtab, t.syment, k)
  }

  /**
   The k-th symbol the loop visits is of type 2, STT_FUNC, has a readable name, and its value after the image base is
   this entry address. The fields are where the ELF gABI puts them in a symbol of the class.
   */
  ghost predicate Defines(img: Image, base: Word64, is64: bool, t: Tables, k: nat, entry: Word64) {
    && Visited(t.symtab, t.strtab, t.syment, k)
    && var s := SymbolAt(t, k);
    var name, value, info :=
      img(s, W32), if is64 then img(s + 8, W64) else img(s + 4, W32), img(s + if is64 then 4 else 12, W8);
    && name.Some? && value.Some? && info.Some? && info.value % 16 == 2
    && ReadName(img, t.strtab + name.value, []).Some?
    && entry == (value.value + base) % TWO_TO_64
  }

  /** The name of its tracepoint: the path bytes, 58, and the name read; nothing without a path. */
  function NamedAs(img: Image, file: CString, is64: bool, t: Tables, k: nat): seq<Byte>
  {
    var name := img(SymbolAt(t, k), W32);
    if file.Null? || name.None? then []
    else
      match ReadName(img, t.strtab + name.value, [])
      case None => []
      case Some(bytes) => file.bytes + [58] + bytes
  }

  /** The reader's view of a symbol agrees. */
  lemma SymbolExactly(img: Image, base: Word64, is64: bool, t: Tables, k: nat, entry: Word64)
    requires Visited(t.symtab, t.strtab, t.syment, k)
    ensures var sym := ReadSymbol(img, is64, t.strtab, SymbolAt(t, k));
            Defines(img, base, is64, t, k, entry) <==>
            sym.Some? && sym.value.Function? && entry == Add64(sym.value.value, base)
    ensures Defines(img, base, is64, t, k, entry) ==>
              forall file :: NamedAs(img, file, is64, t, k) ==
                             FullName(file, ReadSymbol(img, is64, t.strtab, SymbolAt(t, k)).value.name)
  {
    var s := SymbolAt(t, k);
    var fields := SymbolFields(is64, s);
    if Loads(img, fields).Some? {
      LoadsExact(img, fields, Loads(img, fields).value);
    } else if img(s, W32).Some? && img(fields[1].off, fields[1].w).Some? && img(fields[2].off, W8).Some? {
      LoadsExact(img, fields,
                 [img(s, W32).value, img(fields[1].off, fields[1].w).value, img(fields[2].off, W8).value]);
    }
  }

  ghost predicate DefinesLast(img: Image, base: Word64, is64: bool, t: Tables, k: nat, entry: Word64) {
    && Defines(img, base, is64, t, k, entry)
    && forall j: nat :: k < j ==> !Defines(img, base, is64, t, j, entry)
  }

  /**
   A successful parse that reads the symbol table changes the function table exactly at the entry
   addresses of its function symbols, and the last symbol for an address names it.
   */
  lemma ParsedTableIsExact(mem: Memory, base: Word64, file: CString, t0: Entries, is64: bool, t: Tables, entry: Word64)
    requires ReadFront(ImageAt(mem, base), base) == Ready(is64, t)
    requires Parse(mem, base, file).verdict == Done
    ensures var img, table := ImageAt(mem, base), Record(t0, Parse(mem, base, file).added);
            && (entry in table <==> entry in t0 || exists k: nat :: Defines(img, base, is64, t, k, entry))
            && (forall k: nat :: DefinesLast(img, base, is64, t, k, entry) ==>
                                   && entry in table
                                   && table[entry] == NamedAs(img, file, is64, t, k))
            && (entry in t0 && (forall k: nat :: !Defines(img, base, is64, t, k, entry)) ==> table[entry] == t0[entry])
  {
    hide Defines, NamedAs, CallsAt, Record, Walk, ReadFront;
    var img := ImageAt(mem, base);
    var calls := CallsAt(img, base, file, is64, t.strtab);
    forall k: nat | Visited(t.symtab, t.strtab, t.syment, k)
      ensures CallsFor(calls, SymbolAt(t, k), entry) <==> Defines(img, base, is64, t, k, entry)
    {
      CallsAreDefinitions(img, base, file, is64, t, k, entry);
    }
    forall k: nat | DefinesLast(img, base, is64, t, k, entry)
      ensures var table := Record(t0, Parse(mem, base, file).added);
              entry in table && table[entry] == NamedAs(img, file, is64, t, k)
    {
      DefinedIsVisited(img, base, is64, t, k, entry);
      CallsAreDefinitions(img, base, file, is64, t, k, entry);
      WalkWins(calls, t.symtab, t.strtab, t.syment, Rounds(t.syment), t0, k,
               Tracepoint(entry, NamedAs(img, file, is64, t, k)));
    }
    if k: nat :| Defines(img, base, is64, t, k, entry) {
      var _ := LastDefinition(img, base, file, is64, t, k, entry);
    } else {
      WalkKeeps(calls, t.symtab, t.strtab, t.syment, Rounds(t.syment), t0, entry);
    }
  }

  /** A loop that ends visits finitely many symbols, so there is a last one for each address. */
  lemma LastDefinition(img: Image, base: Word64, file: CString, is64: bool, t: Tables, k: nat, entry: Word64)
    returns (last: nat)
    requires Defines(img, base, is64, t, k, entry)
    requires Walk(CallsAt(img, base, file, is64, t.strtab), t.symtab, t.strtab, t.syment, [],
                  Rounds(t.syment)).verdict == Done
    ensures DefinesLast(img, base, is64, t, last, entry)
  {
    var n := WalkEnds(CallsAt(img, base, file, is64, t.strtab), t.symtab, t.strtab, t.syment, [], Rounds(t.syment));
    last := LastBefore(img, base, is64, t, k, entry, n);
  }

  lemma LastBefore(img: Image, base: Word64, is64: bool, t: Tables, k: nat, entry: Word64, n: nat) returns (last: nat)
    requires Defines(img, base, is64, t, k, entry) && Visit(t.symtab, t.syment, n) >= t.strtab
    ensures DefinesLast(img, base, is64, t, last, entry)
    decreases n - k
  {
    assert k < n;
    if j: nat :| k < j && Defines(img, base, is64, t, j, entry) {
      assert j < n;
      last := LastBefore(img, base, is64, t, j, entry, n);
    } else {
      last := k;
    }
  }

  lemma DefinedIsVisited(img: Image, base: Word64, is64: bool, t: Tables, k: nat, entry: Word64)
    requires Defines(img, base, is64, t, k, entry)
    ensures Visited(t.symtab, t.strtab, t.syment, k)
  {}

  lemma CallsAreDefinitions(img: Image, base: Word64, file: CString, is64: bool, t: Tables, k: nat, entry: Word64)
    requires Visited(t.symtab, t.strtab, t.syment, k)
    ensures CallsFor(CallsAt(img, base, file, is64, t.strtab), SymbolAt(t, k), entry) <==>
            Defines(img, base, is64, t, k, entry)
    ensures Defines(img, base, is64, t, k, entry) ==>
              CallsAt(img, base, file, is64, t.strtab)(SymbolAt(t, k))
              == Some([Tracepoint(entry, NamedAs(img, file, is64, t, k))])
  {
    hide Defines, ReadSymbol, NamedAs;
    var r := SymbolCalls(img, base, file, is64, t.strtab, SymbolAt(t, k));
    assert CallsAt(img, base, file, is64, t.strtab)(SymbolAt(t, k)) == r;
    SymbolExactly(img, base, is64, t, k, entry);
    if Defines(img, base, is64, t, k, entry) {
      assert r.value[0].entry == entry;
    }
  }
}
