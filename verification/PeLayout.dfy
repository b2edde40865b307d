/** PE files laid out in memory byte by byte, and what parse_header_pe makes of them. */
module PeLayout {
  import opened Words
  import opened GuestMemory
  import opened FunctionTable
  import opened ImageReading
  import opened WalkProperties
  import opened BytesInImage
  import opened PeReader

  /** An exported function with a name. */
  datatype Export = Export(name: seq<Byte>, rva: Word64)

  /** Where the headers and the export tables are; nameAt and ordinals are the contents of two of the tables. */
  datatype Layout = Layout(
    lfanew: nat,
    plus: bool,
    count: nat,
    directory: nat,
    functions: nat,
    exports: Exports,
    nameAt: seq<Word64>,
    ordinals: seq<Word64>)

  // ----- the bytes -----

  /**
   The MZ and PE signatures, and the fields of the file and optional headers; everything up to the last section header
   is readable.
   */
  ghost predicate HeadersLaid(mem: Memory, base: Word64, l: Layout) {
    && WordAt(mem, base, W16, 0x5a4d) && WordAt(mem, base + 60, W32, l.lfanew)
    && Stretch(mem, base, l.lfanew, l.lfanew + 24 + (if l.plus then 240 else 224) + 40 * l.count)
    && WordAt(mem, base + l.lfanew, W8, 'P' as int) && WordAt(mem, base + (l.lfanew + 1), W8, 'E' as int)
    && WordAt(mem, base + (l.lfanew + 6), W16, l.count)
    && WordAt(mem, base + (l.lfanew + 24), W16, if l.plus then 0x20b else 0x10b)
    && WordAt(mem, base + (l.lfanew + 24 + if l.plus then 112 else 96), W32, l.directory)
  }

  /** The export directory: the number of functions and names, and the addresses of the three tables. */
  ghost predicate DirectoryLaid(mem: Memory, base: Word64, l: Layout) {
    var d, x := l.directory, l.exports;
    && l.functions != 0 && x.functions != 0 && x.nameTable != 0 && x.ordinals != 0
    && Stretch(mem, base, d + 12, d + 16)
    && WordAt(mem, base + (d + 20), W32, l.functions) && WordAt(mem, base + (d + 24), W32, x.names)
    && WordAt(mem, base + (d + 28), W32, x.functions) && WordAt(mem, base + (d + 32), W32, x.nameTable)
    && WordAt(mem, base + (d + 36), W32, x.ordinals)
  }

  /** Name number i: its ordinal, its address, its bytes, and the address in the function table, none beyond 4 GB. */
  ghost predicate ExportLaid(mem: Memory, base: Word64, l: Layout, i: nat, e: Export)
    requires i < |l.nameAt| && i < |l.ordinals|
  {
    var x, at, ordinal := l.exports, l.nameAt[i], l.ordinals[i];
    && x.ordinals + 2 * i < TWO_TO_32 && WordAt(mem, base + (x.ordinals + 2 * i), W16, ordinal)
    && x.nameTable + 4 * i < TWO_TO_32 && WordAt(mem, base + (x.nameTable + 4 * i), W32, at)
    && at + |e.name| < TWO_TO_32 && NameLaid(mem, base + at, e.name)
    && x.functions + 4 * ordinal < TWO_TO_32 && WordAt(mem, base + (x.functions + 4 * ordinal), W32, e.rva)
  }

  ghost predicate LaidOut(mem: Memory, base: Word64, l: Layout, defs: seq<Export>) {
    && HeadersLaid(mem, base, l) && DirectoryLaid(mem, base, l)
    && |defs| == |l.nameAt| == |l.ordinals| == l.exports.names
    && forall i: nat :: i < |defs| ==> ExportLaid(mem, base, l, i, defs[i])
  }

  // ----- reading them back -----

  lemma HeaderFieldsRead(mem: Memory, base: Word64, l: Layout)
    requires HeadersLaid(mem, base, l)
    ensures HeadersReadable(ImageAt(mem, base), l.lfanew) && IsPlus(ImageAt(mem, base), l.lfanew) == l.plus
    ensures Count(ImageAt(mem, base), l.lfanew) == l.count
  {
    var n, to := l.lfanew, SectionsAt(l.lfanew, l.plus) + 40 * l.count;
    FieldReads(mem, base, n + 6, W16, l.count);
    FieldReads(mem, base, n + 24, W16, if l.plus then 0x20b else 0x10b);
    ReadsInStretch(mem, base, n, to, n + 4, W16);
    ReadsInStretch(mem, base, n, to, n + 20, W16);
    ReadsInStretch(mem, base, n, to, n + 48, W64);
    ReadsInStretch(mem, base, n, to, n + 52, W32);
    ReadsInStretch(mem, base, n, to, n + 60, W32);
  }

  lemma TablesRead(mem: Memory, base: Word64, l: Layout)
    requires Stretch(mem, base, l.lfanew, SectionsAt(l.lfanew, l.plus) + 40 * l.count)
    ensures DirectoriesReadable(ImageAt(mem, base), DirectoryAt(l.lfanew, l.plus))
    ensures SectionsReadable(ImageAt(mem, base), SectionsAt(l.lfanew, l.plus), l.count)
  {
    var n, to := l.lfanew, SectionsAt(l.lfanew, l.plus) + 40 * l.count;
    forall i | 0 <= i < 16
      ensures DirectoryReadable(ImageAt(mem, base), DirectoryAt(n, l.plus) + 8 * i)
    {
      ReadsInStretch(mem, base, n, to, DirectoryAt(n, l.plus) + 8 * i, W32);
      ReadsInStretch(mem, base, n, to, DirectoryAt(n, l.plus) + 8 * i + 4, W32);
    }
    forall k | 0 <= k < l.count
      ensures SectionReadable(ImageAt(mem, base), SectionsAt(n, l.plus) + 40 * k)
    {
      SectionReads(mem, base, n, to, SectionsAt(n, l.plus) + 40 * k);
    }
  }

  lemma SectionReads(mem: Memory, base: Word64, from: int, to: int, at: int)
    requires Stretch(mem, base, from, to) && from <= at && at + 40 <= to
    ensures SectionReadable(ImageAt(mem, base), at)
  {
    forall x | at <= x < at + 8
      ensures ImageAt(mem, base)(x, W8).Some?
    {
      ReadsInStretch(mem, base, from, to, x, W8);
    }
    ReadsInStretch(mem, base, from, to, at + 8, W32);
    ReadsInStretch(mem, base, from, to, at + 12, W32);
    ReadsInStretch(mem, base, from, to, at + 16, W32);
  }

  lemma DirectoryReads(mem: Memory, base: Word64, l: Layout)
    requires DirectoryLaid(mem, base, l)
    ensures ReadExports(ImageAt(mem, base), l.directory) == Found(l.exports)
  {
    hide ImageAt, WordAt, Stretch;
    var d, x := l.directory, l.exports;
    ReadsInStretch(mem, base, d + 12, d + 16, d + 12, W32);
    FieldReads(mem, base, d + 20, W32, l.functions);
    FieldReads(mem, base, d + 24, W32, x.names);
    FieldReads(mem, base, d + 28, W32, x.functions);
    FieldReads(mem, base, d + 32, W32, x.nameTable);
    FieldReads(mem, base, d + 36, W32, x.ordinals);
  }

  lemma HeadersRead(mem: Memory, base: Word64, l: Layout)
    requires HeadersLaid(mem, base, l) && DirectoryLaid(mem, base, l)
    ensures ReadHeaders(ImageAt(mem, base)) == Found(l.exports)
  {
    hide WordAt, ImageAt;
    FieldReads(mem, base, 0, W16, 0x5a4d);
    FieldReads(mem, base, 60, W32, l.lfanew);
    FieldReads(mem, base, l.lfanew, W8, 'P' as int);
    FieldReads(mem, base, l.lfanew + 1, W8, 'E' as int);
    FieldReads(mem, base, DirectoryAt(l.lfanew, l.plus), W32, l.directory);
    HeaderFieldsRead(mem, base, l);
    TablesRead(mem, base, l);
    DirectoryReads(mem, base, l);
  }

  // ----- exports -----

  lemma LowReads(mem: Memory, base: Word64, off: int, w: Width, v: int)
    requires 0 <= off < TWO_TO_32 && WordAt(mem, base + off, w, v)
    ensures Low32(ImageAt(mem, base))(off, w) == Some(v)
  {
    FieldReads(mem, base, off, w, v);
  }

  lemma LowNameReads(mem: Memory, base: Word64, at: Word64, name: seq<Byte>)
    requires at + |name| < TWO_TO_32 && NameLaid(mem, base + at, name)
    ensures ReadName(Low32(ImageAt(mem, base)), at, []) == Some(Cut(name))
  {
    var start: int := at;
    forall i | 0 <= i <= |name|
      ensures Holds(Low32(ImageAt(mem, base)), start + i, (name + [0])[i])
    {
      NameHolds(mem, base, start, name, i);
      assert Low32(ImageAt(mem, base))(start + i, W8) == ImageAt(mem, base)(start + i, W8);
    }
    NameSpelled(Low32(ImageAt(mem, base)), start, name);
  }

  function CallOf(base: Word64, file: CString, e: Export): Tracepoint {
    Tracepoint((e.rva + base) % TWO_TO_64, Labelled(file, e.name))
  }

  lemma ExportReads(mem: Memory, base: Word64, file: CString, l: Layout, i: Word64, e: Export)
    requires i < |l.nameAt| && i < |l.ordinals| && ExportLaid(mem, base, l, i, e)
    ensures ExportCall(ImageAt(mem, base), base, file, l.exports, i) == Some([CallOf(base, file, e)])
  {
    var x, at, ordinal := l.exports, l.nameAt[i], l.ordinals[i];
    LowReads(mem, base, x.ordinals + 2 * i, W16, ordinal);
    LowReads(mem, base, x.nameTable + 4 * i, W32, at);
    LowReads(mem, base, x.functions + 4 * ordinal, W32, e.rva);
    LowNameReads(mem, base, at, e.name);
    LabelIsFullName(file, e.name);
  }

  function Listed(base: Word64, file: CString, defs: seq<Export>): seq<Tracepoint> {
    seq(|defs|, i requires 0 <= i < |defs| => CallOf(base, file, defs[i]))
  }

  lemma CountOne(calls: Calls, k: Word64, names: Word64, call: Tracepoint, rest: seq<Tracepoint>)
    requires k < names && calls(k) == Some([call])
    requires Walk(calls, k + 1, names, 1, [], names - (k + 1)) == Outcome(Done, rest)
    ensures Walk(calls, k, names, 1, [], names - k) == Outcome(Done, [call] + rest)
  {
    assert Add64(k, 1) == k + 1;
    WalkOne(calls, k, names, 1, [call], names - k);
  }

  lemma {:induction false} CountAll(calls: Calls, names: Word64, each: seq<Tracepoint>, k: Word64)
    requires k <= names == |each| && forall i: Word64 :: i < names ==> calls(i) == Some([each[i]])
    ensures Walk(calls, k, names, 1, [], names - k) == Outcome(Done, each[k..])
    decreases names - k
  {
    if k < names {
      CountAll(calls, names, each, k + 1);
      CountOne(calls, k, names, each[k], each[k + 1..]);
      assert each[k..] == [each[k]] + each[k + 1..];
    }
  }

  /** A PE32 or PE32+ file is parsed successfully, and gives one tracepoint for each of its exported names. */
  lemma LaidOutParses(mem: Memory, base: Word64, file: CString, l: Layout, defs: seq<Export>)
    requires LaidOut(mem, base, l, defs)
    ensures ParsePe(mem, base, file) == Outcome(Done, Listed(base, file, defs))
  {
    hide HeadersLaid, DirectoryLaid, ExportLaid, ReadHeaders, ExportCall;
    var calls, each := ExportsAt(ImageAt(mem, base), base, file, l.exports), Listed(base, file, defs);
    HeadersRead(mem, base, l);
    forall i: Word64 | i < |defs|
      ensures calls(i) == Some([each[i]])
    {
      ExportReads(mem, base, file, l, i, defs[i]);
    }
    CountAll(calls, l.exports.names, each, 0);
    assert each[0..] == each;
  }
}
