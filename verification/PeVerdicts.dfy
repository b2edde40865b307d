/** How parse_header_pe ends when it adds nothing, cause by cause. */
module PeVerdicts {
  import opened Words
  import opened GuestMemory
  import opened ImageReading
  import opened BytesInImage
  import opened PeReader
  import opened PeLayout

  /** The file does not start with the MZ signature. */
  lemma NotMz(mem: Memory, base: Word64, file: CString, magic: int)
    requires WordAt(mem, base, W16, magic) && magic != 0x5a4d
    ensures ParsePe(mem, base, file) == Outcome(Done, [])
  {
    FieldReads(mem, base, 0, W16, magic);
  }

  /** What e_lfanew names does not start with 'P' 'E'. */
  lemma NotPe(mem: Memory, base: Word64, file: CString, lfanew: int, p: int, e: int)
    requires WordAt(mem, base, W16, 0x5a4d) && WordAt(mem, base + 60, W32, lfanew)
    requires WordAt(mem, base + lfanew, W8, p) && WordAt(mem, base + (lfanew + 1), W8, e) && (p != 0x50 || e != 0x45)
    ensures ParsePe(mem, base, file) == Outcome(Done, [])
  {
    hide WordAt, ImageAt;
    FieldReads(mem, base, 0, W16, 0x5a4d);
    FieldReads(mem, base, 60, W32, lfanew);
    FieldReads(mem, base, lfanew, W8, p);
    FieldReads(mem, base, lfanew + 1, W8, e);
  }

  lemma UpToDirectory(mem: Memory, base: Word64, l: Layout)
    requires HeadersLaid(mem, base, l)
    ensures ReadHeaders(ImageAt(mem, base)) == ReadExports(ImageAt(mem, base), l.directory)
  {
    hide WordAt, ImageAt;
    FieldReads(mem, base, 0, W16, 0x5a4d);
    FieldReads(mem, base, 60, W32, l.lfanew);
    FieldReads(mem, base, l.lfanew, W8, 'P' as int);
    FieldReads(mem, base, l.lfanew + 1, W8, 'E' as int);
    FieldReads(mem, base, DirectoryAt(l.lfanew, l.plus), W32, l.directory);
    HeaderFieldsRead(mem, base, l);
    TablesRead(mem, base, l);
  }

  /** The export directory is readable as far as its number of functions, which is 0. */
  lemma NoFunctions(mem: Memory, base: Word64, file: CString, l: Layout)
    requires HeadersLaid(mem, base, l)
    requires Stretch(mem, base, l.directory + 12, l.directory + 16) && WordAt(mem, base + (l.directory + 20), W32, 0)
    ensures ParsePe(mem, base, file) == Outcome(Done, [])
  {
    hide WordAt, ImageAt, Stretch;
    UpToDirectory(mem, base, l);
    ReadsInStretch(mem, base, l.directory + 12, l.directory + 16, l.directory + 12, W32);
    FieldReads(mem, base, l.directory + 20, W32, 0);
  }

  /** One of the three tables of the export directory is missing. */
  lemma MissingTable(mem: Memory, base: Word64, file: CString, l: Layout)
    requires HeadersLaid(mem, base, l) && l.functions != 0
    requires var d, x := l.directory, l.exports;
             && (x.functions == 0 || x.nameTable == 0 || x.ordinals == 0)
             && Stretch(mem, base, d + 12, d + 16)
             && WordAt(mem, base + (d + 20), W32, l.functions) && WordAt(mem, base + (d + 24), W32, x.names)
             && WordAt(mem, base + (d + 28), W32, x.functions) && WordAt(mem, base + (d + 32), W32, x.nameTable)
             && WordAt(mem, base + (d + 36), W32, x.ordinals)
    ensures ParsePe(mem, base, file) == Outcome(Done, [])
  {
    hide WordAt, ImageAt, Stretch;
    var d, x := l.directory, l.exports;
    UpToDirectory(mem, base, l);
    ReadsInStretch(mem, base, d + 12, d + 16, d + 12, W32);
    FieldReads(mem, base, d + 20, W32, l.functions);
    FieldReads(mem, base, d + 24, W32, x.names);
    FieldReads(mem, base, d + 28, W32, x.functions);
    FieldReads(mem, base, d + 32, W32, x.nameTable);
    FieldReads(mem, base, d + 36, W32, x.ordinals);
  }
}
