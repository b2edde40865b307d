/** module-pe.c: the headers and the export table of a mapped PE file. */
module PeReader {
  import opened Words
  import opened GuestMemory
  import opened FunctionTable
  import opened ImageReading

  const TWO_TO_32: int := 0x1_0000_0000

  /** Offsets computed in 32-bit unsigned arithmetic. */
  function Low32(img: Image): Image {
    (off, w) => img(off % TWO_TO_32, w)
  }

  datatype Exports = Exports(names: Word64, functions: Word64, nameTable: Word64, ordinals: Word64)

  datatype PeFront = Halted(verdict: Verdict) | Found(exports: Exports)

  // ----- where the PE format puts things -----

  /** Data directory 0: 96 or 112 bytes into the optional header. */
  function DirectoryAt(lfanew: int, plus: bool): int {
    lfanew + 24 + if plus then 112 else 96
  }

  /** The section headers follow the 16 data directories. */
  function SectionsAt(lfanew: int, plus: bool): int {
    DirectoryAt(lfanew, plus) + 128
  }

  predicate DirectoryReadable(img: Image, at: int) {
    img(at, W32).Some? && img(at + 4, W32).Some?
  }

  /** The 16 data directories of 8 bytes each. */
  predicate DirectoriesReadable(img: Image, start: int) {
    forall i | 0 <= i < 16 :: DirectoryReadable(img, start + 8 * i)
  }

  predicate BytesReadable(img: Image, from: int, to: int) {
    forall x | from <= x < to :: img(x, W8).Some?
  }

  predicate SectionReadable(img: Image, at: int) {
    && BytesReadable(img, at, at + 8)
    && img(at + 8, W32).Some? && img(at + 12, W32).Some? && img(at + 16, W32).Some?
  }

  /** `count` section headers of 40 bytes each. */
  predicate SectionsReadable(img: Image, start: int, count: int) {
    forall k | 0 <= k < count :: SectionReadable(img, start + 40 * k)
  }

  /** Every field of the file and optional headers that the parse loads is readable. */
  predicate HeadersReadable(img: Image, l: int) {
    && img(l + 4, W16).Some? && img(l + 6, W16).Some? && img(l + 20, W16).Some? && img(l + 24, W16).Some?
    && (if IsPlus(img, l) then img(l + 48, W64).Some? else img(l + 52, W32).Some?)
    && img(l + 60, W32).Some?
  }

  predicate IsPlus(img: Image, l: int) {
    img(l + 24, W16) == Some(0x20b)
  }

  function Count(img: Image, l: int): int {
    match img(l + 6, W16) case Some(n) => n case None => 0
  }

  predicate TablesReadable(img: Image, l: int) {
    && DirectoriesReadable(img, DirectoryAt(l, IsPlus(img, l)))
    && SectionsReadable(img, SectionsAt(l, IsPlus(img, l)), Count(img, l))
  }

  /** The export directory at offset x. */
  function ReadExports(img: Image, x: int): PeFront {
    var dll := img(x + 12, W32);
    var functions := img(x + 20, W32);
    if dll.None? || functions.None? then Halted(Retry)
    else if functions.value == 0 then Halted(Done)
    else
      var names, addresses, nameTable, ordinals :=
        img(x + 24, W32), img(x + 28, W32), img(x + 32, W32), img(x + 36, W32);
      if names.None? || addresses.None? || nameTable.None? || ordinals.None? then Halted(Retry)
      else if addresses.value == 0 || ordinals.value == 0 || nameTable.value == 0 then Halted(Done)
      else Found(Exports(names.value, addresses.value, nameTable.value, ordinals.value))
  }

  /** The headers, stated by position. */
  function ReadHeaders(img: Image): PeFront {
    var magic := img(0, W16);
    if magic.None? then Halted(Retry)
    else if magic.value != 0x5a4d then Halted(Done)
    else
      var lfanew := img(60, W32);
      if lfanew.None? then Halted(Retry) else ReadNewHeader(img, lfanew.value)
  }

  function ReadNewHeader(img: Image, l: int): PeFront {
    if img(l, W8).None? || img(l + 1, W8).None? then Halted(Retry)
    else if img(l, W8).value != 'P' as int || img(l + 1, W8).value != 'E' as int then Halted(Done)
    else if !HeadersReadable(img, l) || !TablesReadable(img, l) then Halted(Retry)
    else
      assert DirectoryReadable(img, DirectoryAt(l, IsPlus(img, l)) + 8 * 0);
      match img(DirectoryAt(l, IsPlus(img, l)), W32)
      case Some(x) => ReadExports(img, x)
      case None => Halted(Retry)
  }

  /** The function_add call for exported name number i; None when a byte of it is unreadable. */
  function ExportCall(img: Image, base: Word64, file: CString, x: Exports, i: Word64): Option<seq<Tracepoint>> {
    var low := Low32(img);
    var ordinal := low(x.ordinals + 2 * i, W16);
    var name := low(x.nameTable + 4 * i, W32);
    if ordinal.None? || name.None? then None
    else
      var str := ReadName(low, name.value, []);
      var entry := low(x.functions + 4 * ordinal.value, W32);
      if str.None? || entry.None? then None
      else Some([Tracepoint(Add64(entry.value, base), FullName(file, str.value))])
  }

  function ExportsAt(img: Image, base: Word64, file: CString, x: Exports): Calls {
    (i: Word64) => ExportCall(img, base, file, x, i)
  }

  function ParsePe(mem: Memory, base: Word64, file: CString): Outcome {
    var img := ImageAt(mem, base);
    match ReadHeaders(img)
    case Halted(v) => Outcome(v, [])
    case Found(x) => Walk(ExportsAt(img, base, file, x), 0, x.names, 1, [], x.names)
  }

  // ----- the reader, which walks a running offset -----

  /** The loop over the 16 data directories. */
  method SkipDirectories(img: Image, start: int) returns (exports: Option<Word64>, offs: int)
    ensures exports.Some? <==> DirectoriesReadable(img, start)
    ensures exports.Some? ==> exports == img(start, W32) && offs == start + 128
  {
    offs, exports := start, None;
    var i := 0;
    while i < 16
      invariant 0 <= i <= 16 && offs == start + 8 * i
      invariant forall j | 0 <= j < i :: DirectoryReadable(img, start + 8 * j)
      invariant i > 0 ==> exports.Some? && exports == img(start, W32)
    {
      var addr := img(offs, W32);
      var size := img(offs + 4, W32);
      if addr.None? || size.None? {
        assert !DirectoryReadable(img, start + 8 * i);
        return None, offs;
      }
      if i == 0 {
        exports := addr;
      }
      offs := offs + 8;
      i := i + 1;
    }
  }

  /** The loop over the section headers. */
  method SkipSections(img: Image, start: int, count: int) returns (ok: bool)
    ensures ok <==> SectionsReadable(img, start, count)
  {
    var offs, k := start, 0;
    while k < count
      invariant 0 <= k && (k <= count || k == 0) && offs == start + 40 * k
      invariant forall j | 0 <= j < k :: SectionReadable(img, start + 40 * j)
    {
      var b := 0;
      while b < 8
        invariant 0 <= b <= 8
        invariant BytesReadable(img, offs, offs + b)
      {
        if img(offs + b, W8).None? {
          assert !BytesReadable(img, offs, offs + 8);
          assert !SectionReadable(img, start + 40 * k);
          return false;
        }
        b := b + 1;
      }
      if img(offs + 8, W32).None? || img(offs + 12, W32).None? || img(offs + 16, W32).None? {
        assert !SectionReadable(img, start + 40 * k);
        return false;
      }
      offs, k := offs + 40, k + 1;
    }
    return true;
  }

  /** The fields between the signature and the export directory. */
  method LoadNewHeader(img: Image, l: int) returns (r: PeFront)
    ensures r == ReadNewHeader(img, l)
  {
    var offs := l;
    var s1, s2 := img(offs, W8), img(offs + 1, W8);
    if s1.None? || s2.None? {
      return Halted(Retry);
    }
    if s1.value != 'P' as int || s2.value != 'E' as int {
      return Halted(Done);
    }
    offs := offs + 4;
    var machine := img(offs, W16);
    offs := offs + 2;
    var count := img(offs, W16);
    offs := offs + 2 + 4 + 4 + 4;
    var optional := img(offs, W16);
    offs := offs + 2 + 2;
    var magic := img(offs, W16);
    if machine.None? || count.None? || optional.None? || magic.None? {
      return Halted(Retry);
    }
    var plus := magic.value == 0x20b;
    offs := offs + 24;
    if plus {
      if img(offs, W64).None? {
        return Halted(Retry);
      }
      offs := offs + 8;
    } else {
      offs := offs + 4;
      if img(offs, W32).None? {
        return Halted(Retry);
      }
      offs := offs + 4;
    }
    offs := offs + 4;
    if img(offs, W32).None? {
      return Halted(Retry);
    }
    offs := offs + 4 + if plus then 72 else 56;
    assert offs == DirectoryAt(l, IsPlus(img, l)) && count.value == Count(img, l);
    r := LoadTables(img, l, offs, count.value);
  }

  method LoadTables(img: Image, l: int, start: int, count: int) returns (r: PeFront)
    requires img(l, W8) == Some('P' as int) && img(l + 1, W8) == Some('E' as int) && HeadersReadable(img, l)
    requires start == DirectoryAt(l, IsPlus(img, l)) && count == Count(img, l)
    ensures r == ReadNewHeader(img, l)
  {
    var exports, offs := SkipDirectories(img, start);
    if exports.None? {
      return Halted(Retry);
    }
    var ok := SkipSections(img, offs, count);
    if !ok {
      return Halted(Retry);
    }
    r := LoadExportDirectory(img, exports.value);
  }

  /** The export directory, again by a running offset. */
  method LoadExportDirectory(img: Image, start: int) returns (r: PeFront)
    ensures r == ReadExports(img, start)
  {
    var offs := start + 4 + 4 + 2 + 2;
    if img(offs, W32).None? {
      return Halted(Retry);
    }
    offs := offs + 4 + 4;
    var functions := img(offs, W32);
    if functions.None? {
      return Halted(Retry);
    }
    if functions.value == 0 {
      return Halted(Done);
    }
    offs := offs + 4;
    var names := img(offs, W32);
    offs := offs + 4;
    var addresses := img(offs, W32);
    offs := offs + 4;
    var nameTable := img(offs, W32);
    offs := offs + 4;
    var ordinals := img(offs, W32);
    if names.None? || addresses.None? || nameTable.None? || ordinals.None? {
      return Halted(Retry);
    }
    if addresses.value == 0 || ordinals.value == 0 || nameTable.value == 0 {
      return Halted(Done);
    }
    return Found(Exports(names.value, addresses.value, nameTable.value, ordinals.value));
  }

  /** parse_header_pe */
  method ParseHeaderPe(mem: Memory, base: Word64, file: CString, table: Functions) returns (verdict: Verdict)
    requires table.Valid()
    modifies table
    ensures verdict == ParsePe(mem, base, file).verdict
    ensures table.Valid() && table.calls == old(table.calls) + ParsePe(mem, base, file).added
  {
    var img := ImageAt(mem, base);
    var magic := img(0, W16);
    if magic.None? {
      return Retry;
    }
    if magic.value != 0x5a4d {
      return Done;
    }
    var lfanew := img(60, W32);
    if lfanew.None? {
      return Retry;
    }
    var front := LoadNewHeader(img, lfanew.value);
    if front.Halted? {
      return front.verdict;
    }
    WalkAppends(ExportsAt(img, base, file, front.exports), 0, front.exports.names, 1, table.calls, front.exports.names);
    verdict := AddExports(img, base, file, front.exports, table);
  }

  /** The loop over the exported names, adding tracepoints as it goes; its counter stays below 2^64. */
  method AddExports(img: Image, base: Word64, file: CString, x: Exports, table: Functions) returns (verdict: Verdict)
    requires table.Valid()
    modifies table
    ensures table.Valid()
    ensures Outcome(verdict, table.calls) ==
            Walk(ExportsAt(img, base, file, x), 0, x.names, 1, old(table.calls), x.names)
  {
    hide Walk, ExportsAt;
    var i: Word64 := 0;
    while i < x.names
      invariant table.Valid() && i <= x.names
      invariant Walk(ExportsAt(img, base, file, x), i, x.names, 1, table.calls, x.names - i) ==
                Walk(ExportsAt(img, base, file, x), 0, x.names, 1, old(table.calls), x.names)
    {
      var ok := AddExport(img, base, file, x, i, table);
      if !ok {
        return Retry;
      }
      i := i + 1;
    }
    WalkPastEnd(ExportsAt(img, base, file, x), i, x.names, 1, table.calls, x.names - i);
    return Done;
  }

  /** The body of the export loop. */
  method AddExport(img: Image, base: Word64, file: CString, x: Exports, i: Word64, table: Functions) returns (ok: bool)
    requires table.Valid() && i < x.names
    modifies table
    ensures table.Valid()
    ensures Walk(ExportsAt(img, base, file, x), i, x.names, 1, old(table.calls), x.names - i) ==
            if !ok then Outcome(Retry, table.calls)
            else Walk(ExportsAt(img, base, file, x), i + 1, x.names, 1, table.calls, x.names - (i + 1))
  {
    assert Add64(i, 1) == i + 1;
    var r := LoadExport(img, base, file, x, i);
    ok := r.Some?;
    assert ExportsAt(img, base, file, x)(i) == if ok then Some([r.value]) else None;
    if ok {
      table.Add(r.value.entry, r.value.name);
    }
  }

  /** The body of the export loop up to function_add. */
  method LoadExport(img: Image, base: Word64, file: CString, x: Exports, i: Word64) returns (r: Option<Tracepoint>)
    ensures ExportCall(img, base, file, x, i) == if r.Some? then Some([r.value]) else None
  {
    var low := Low32(img);
    var ordinal := low(x.ordinals + 2 * i, W16);
    var name := low(x.nameTable + 4 * i, W32);
    if ordinal.None? || name.None? {
      return None;
    }
    var str := LoadName(low, name.value);
    var place: int := ordinal.value;
    var entry := low(x.functions + 4 * place, W32);
    if str.None? || entry.None? {
      return None;
    }
    return Some(Tracepoint(Add64(entry.value, base), FullName(file, str.value)));
  }
}
