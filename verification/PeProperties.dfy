/** What parse_header_pe promises over memories that grow, and the exact tracepoints it leaves. */
module PeProperties {
  import opened Words
  import opened GuestMemory
  import opened FunctionTable
  import opened ImageReading
  import opened WalkProperties
  import opened PeReader

  lemma HeadersRefine(img: Image, img': Image)
    requires Refines(img, img')
    ensures ReadHeaders(img) != Halted(Retry) ==> ReadHeaders(img') == ReadHeaders(img)
  {
    var lfanew := img(60, W32);
    if lfanew.Some? {
      NewHeaderRefines(img, img', lfanew.value);
    }
  }

  lemma NewHeaderRefines(img: Image, img': Image, l: int)
    requires Refines(img, img')
    ensures ReadNewHeader(img, l) != Halted(Retry) ==> ReadNewHeader(img', l) == ReadNewHeader(img, l)
  {
    if img(l, W8).Some? && img(l + 1, W8).Some? && HeadersReadable(img, l) && TablesReadable(img, l) {
      assert HeadersReadable(img', l) && IsPlus(img', l) == IsPlus(img, l) && Count(img', l) == Count(img, l);
      forall at | SectionReadable(img, at)
        ensures SectionReadable(img', at)
      {}
      forall at | DirectoryReadable(img, at)
        ensures DirectoryReadable(img', at)
      {}
      assert TablesReadable(img', l);
    }
  }

  lemma ExportRefines(img: Image, img': Image, base: Word64, file: CString, x: Exports, i: Word64)
    requires Refines(img, img')
    ensures ExportCall(img, base, file, x, i).Some? ==>
            ExportCall(img', base, file, x, i) == ExportCall(img, base, file, x, i)
  {
    var low, low' := Low32(img), Low32(img');
    assert Refines(low, low');
    var name := low(x.nameTable + 4 * i, W32);
    if name.Some? {
      NameRefines(low, low', name.value, []);
    }
  }

  /** As for ELF: a failed attempt adds a prefix of a later one, any other is repeated exactly. */
  lemma ParsePeExtends(mem: Memory, mem': Memory, base: Word64, file: CString)
    requires Extends(mem, mem')
    ensures ParsePe(mem, base, file).added <= ParsePe(mem', base, file).added
    ensures ParsePe(mem, base, file).verdict != Retry ==> ParsePe(mem', base, file) == ParsePe(mem, base, file)
  {
    var img, img' := ImageAt(mem, base), ImageAt(mem', base);
    ImagesRefine(mem, mem', base);
    HeadersRefine(img, img');
    match ReadHeaders(img)
    case Halted(_) =>
    case Found(x) =>
      var calls, calls' := ExportsAt(img, base, file, x), ExportsAt(img', base, file, x);
      forall i: Word64
        ensures calls(i).Some? ==> calls'(i) == calls(i)
      {
        ExportRefines(img, img', base, file, x, i);
      }
      WalkRefines(calls, calls', 0, x.names, 1, [], x.names);
  }

  /** Earlier attempts on less readable memories leave no trace. */
  lemma PeRetriesConverge(t: Entries, mems: seq<Memory>, others: seq<seq<Tracepoint>>, last: Memory, base: Word64,
                          file: CString)
    requires |mems| == |others|
    requires forall i :: 0 <= i < |mems| ==> Extends(mems[i], last)
    ensures var tries := seq(|mems|, i requires 0 <= i < |mems| => ParsePe(mems[i], base, file).added);
            Record(Attempts(t, tries, others), ParsePe(last, base, file).added) ==
            Record(OthersOnly(t, others), ParsePe(last, base, file).added)
  {
    var tries := seq(|mems|, i requires 0 <= i < |mems| => ParsePe(mems[i], base, file).added);
    forall i | 0 <= i < |tries|
      ensures tries[i] <= ParsePe(last, base, file).added
    {
      ParsePeExtends(mems[i], last, base, file);
    }
    TriesAreAbsorbed(t, tries, others, ParsePe(last, base, file).added);
  }

  /** Exported name number i belongs to this entry address; the offsets of the tables are 32-bit numbers. */
  ghost predicate Exported(img: Image, base: Word64, x: Exports, i: Word64, entry: Word64) {
    && i < x.names
    && match img((x.ordinals + 2 * i) % 0x1_0000_0000, W16)
       case None => false
       case Some(ordinal) =>
         match img((x.functions + 4 * ordinal) % 0x1_0000_0000, W32)
         case None => false
         case Some(a) => entry == (a + base) % TWO_TO_64
  }

  /** The name of its tracepoint: the path bytes, 58, and the exported name; nothing without a path. */
  function ExportedAs(img: Image, file: CString, x: Exports, i: Word64): seq<Byte> {
    var at := img((x.nameTable + 4 * i) % 0x1_0000_0000, W32);
    if file.Null? || at.None? then []
    else
      match ReadName((off, w) => img(off % 0x1_0000_0000, w), at.value, [])
      case None => []
      case Some(bytes) => file.bytes + [58] + bytes
  }

  lemma ExportName(img: Image, base: Word64, file: CString, x: Exports, i: Word64, c: Tracepoint)
    requires ExportCall(img, base, file, x, i) == Some([c])
    ensures c.name == ExportedAs(img, file, x, i)
  {
    assert Low32(img) == ((off, w) => img(off % 0x1_0000_0000, w));
  }

  /** The counter counts. */
  lemma ExportVisits(names: Word64, i: nat)
    ensures Visited(0, names, 1, i) <==> i < names
    ensures i < names ==> Visit(0, 1, i) == i
  {
    if i < names {
      forall j: nat | j <= i
        ensures Visit(0, 1, j) == j
      {}
    } else {
      assert Visit(0, 1, names) == names;
    }
  }

  /** A successful parse has read every exported name. */
  lemma ExportRead(mem: Memory, base: Word64, file: CString, x: Exports, i: Word64)
    requires ReadHeaders(ImageAt(mem, base)) == Found(x) && ParsePe(mem, base, file).verdict == Done && i < x.names
    ensures ExportCall(ImageAt(mem, base), base, file, x, i).Some?
  {
    var calls := ExportsAt(ImageAt(mem, base), base, file, x);
    var n := WalkEnds(calls, 0, x.names, 1, [], x.names);
    ExportVisits(x.names, i);
    ExportVisits(x.names, n);
    assert i < n && Passes(calls, 0, x.names, 1, i);
    assert calls(i) == ExportCall(ImageAt(mem, base), base, file, x, i);
  }

  lemma ExportEntry(img: Image, base: Word64, file: CString, x: Exports, i: Word64, entry: Word64)
    requires i < x.names && ExportCall(img, base, file, x, i).Some?
    ensures var v := ExportCall(img, base, file, x, i).value;
            |v| == 1 && (v[0].entry == entry <==> Exported(img, base, x, i, entry))
  {}

  lemma OneCall(calls: Calls, i: Word64, entry: Word64)
    requires calls(i).Some? && |calls(i).value| == 1
    ensures CallsFor(calls, i, entry) <==> calls(i).value[0].entry == entry
  {}

  /** The symbols of a finished walk over the export table. */
  lemma ExportAt(mem: Memory, base: Word64, file: CString, x: Exports, i: Word64, entry: Word64)
    requires ReadHeaders(ImageAt(mem, base)) == Found(x) && ParsePe(mem, base, file).verdict == Done && i < x.names
    ensures var calls := ExportsAt(ImageAt(mem, base), base, file, x);
            && calls(i).Some? && |calls(i).value| == 1 && calls(i) == ExportCall(ImageAt(mem, base), base, file, x, i)
            && (CallsFor(calls, i, entry) <==> Exported(ImageAt(mem, base), base, x, i, entry))
            && (Exported(ImageAt(mem, base), base, x, i, entry) ==> calls(i).value[0].entry == entry)
  {
    var calls := ExportsAt(ImageAt(mem, base), base, file, x);
    ExportRead(mem, base, file, x, i);
    assert calls(i) == ExportCall(ImageAt(mem, base), base, file, x, i);
    ExportEntry(ImageAt(mem, base), base, file, x, i, entry);
    OneCall(calls, i, entry);
  }

  lemma ExportWins(mem: Memory, base: Word64, file: CString, t0: Entries, x: Exports, i: Word64, entry: Word64)
    requires ReadHeaders(ImageAt(mem, base)) == Found(x) && ParsePe(mem, base, file).verdict == Done
    requires Exported(ImageAt(mem, base), base, x, i, entry)
    requires forall k :: i < k ==> !Exported(ImageAt(mem, base), base, x, k, entry)
    ensures var table := Record(t0, ParsePe(mem, base, file).added);
            && entry in table
            && ExportCall(ImageAt(mem, base), base, file, x, i) == Some([Tracepoint(entry, table[entry])])
  {
    var calls := ExportsAt(ImageAt(mem, base), base, file, x);
    ExportVisits(x.names, i);
    ExportAt(mem, base, file, x, i, entry);
    forall j: nat | i < j && Visited(0, x.names, 1, j)
      ensures !CallsFor(calls, Visit(0, 1, j), entry)
    {
      ExportVisits(x.names, j);
      ExportAt(mem, base, file, x, j, entry);
    }
    WalkWins(calls, 0, x.names, 1, x.names, t0, i, calls(i).value[0]);
  }

  lemma NothingExported(mem: Memory, base: Word64, file: CString, t0: Entries, x: Exports, entry: Word64)
    requires ReadHeaders(ImageAt(mem, base)) == Found(x) && ParsePe(mem, base, file).verdict == Done
    requires forall i :: !Exported(ImageAt(mem, base), base, x, i, entry)
    ensures var table := Record(t0, ParsePe(mem, base, file).added);
            (entry in table <==> entry in t0) && (entry in t0 ==> table[entry] == t0[entry])
  {
    var calls := ExportsAt(ImageAt(mem, base), base, file, x);
    forall j: nat | Visited(0, x.names, 1, j)
      ensures !CallsFor(calls, Visit(0, 1, j), entry)
    {
      ExportVisits(x.names, j);
      ExportAt(mem, base, file, x, j, entry);
    }
    WalkKeeps(calls, 0, x.names, 1, x.names, t0, entry);
  }

  /** The names are finitely many, so there is a last one for each address. */
  lemma LastExport(img: Image, base: Word64, x: Exports, i: Word64, entry: Word64) returns (last: Word64)
    requires Exported(img, base, x, i, entry)
    ensures Exported(img, base, x, last, entry) && forall k :: last < k ==> !Exported(img, base, x, k, entry)
    decreases x.names - i
  {
    if k :| i < k && Exported(img, base, x, k, entry) {
      last := LastExport(img, base, x, k, entry);
    } else {
      last := i;
    }
  }

  /**
   A successful parse of the export table changes the function table exactly at the entries of the exported names, and
   the last name for an entry counts.
   */
  lemma PeTableIsExact(mem: Memory, base: Word64, file: CString, t0: Entries, x: Exports, entry: Word64)
    requires ReadHeaders(ImageAt(mem, base)) == Found(x) && ParsePe(mem, base, file).verdict == Done
    ensures var img, table := ImageAt(mem, base), Record(t0, ParsePe(mem, base, file).added);
            && (entry in table <==> entry in t0 || exists i :: Exported(img, base, x, i, entry))
            && (forall i :: Exported(img, base, x, i, entry)
                            && (forall k :: i < k ==> !Exported(img, base, x, k, entry)) ==>
                              entry in table && table[entry] == ExportedAs(img, file, x, i))
            && (entry in t0 && (forall i :: !Exported(img, base, x, i, entry)) ==> table[entry] == t0[entry])
  {
    var img := ImageAt(mem, base);
    forall i: Word64 | Exported(img, base, x, i, entry) && (forall k :: i < k ==> !Exported(img, base, x, k, entry))
      ensures var table := Record(t0, ParsePe(mem, base, file).added);
              entry in table && table[entry] == ExportedAs(img, file, x, i)
    {
      ExportWins(mem, base, file, t0, x, i, entry);
      ExportName(img, base, file, x, i, Tracepoint(entry, Record(t0, ParsePe(mem, base, file).added)[entry]));
    }
    if i :| Exported(img, base, x, i, entry) {
      var _ := LastExport(img, base, x, i, entry);
    } else {
      NothingExported(mem, base, file, t0, x, entry);
    }
  }
}
