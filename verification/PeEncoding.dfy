/** PE32 and PE32+ files written out, and read back by parse_header_pe. */
module PeEncoding {
  import opened Words
  import opened GuestMemory
  import opened ImageReading
  import opened BytesInImage
  import opened FileBytes
  import opened PeReader
  import opened PeLayout

  // ----- the encoder -----

  const DOS_SIZE := 64

  /** The MZ signature and the offset of the PE header. */
  function DosBytes(): seq<Byte> {
    LittleEndian(0x5a4d, W16) + Zeros(58) + LittleEndian(DOS_SIZE, W32)
  }

  function NtSize(plus: bool): nat {
    SectionsAt(0, plus) + 40
  }

  /** The PE signature, the file header, the optional header with its 16 data directories, and one section header. */
  function NtBytes(plus: bool, directory: nat): seq<Byte> {
    ['P' as int, 'E' as int] + Zeros(4) + LittleEndian(1, W16) + Zeros(16)
    + LittleEndian(if plus then 0x20b else 0x10b, W16) + Zeros(if plus then 110 else 94)
    + LittleEndian(directory, W32) + Zeros(124) + Zeros(40)
  }

  /** The export directory; one more function than names, exported by ordinal only. */
  function DirectoryBytes(names: nat, functions: nat, nameTable: nat, ordinals: nat): seq<Byte> {
    Zeros(20) + LittleEndian(names + 1, W32) + LittleEndian(names, W32) + LittleEndian(functions, W32)
    + LittleEndian(nameTable, W32) + LittleEndian(ordinals, W32)
  }

  lemma DosHas()
    ensures |DosBytes()| == DOS_SIZE && Has(DosBytes(), 0, LittleEndian(0x5a4d, W16))
    ensures Has(DosBytes(), 60, LittleEndian(DOS_SIZE, W32))
  {}

  lemma NtHas(plus: bool, directory: nat)
    ensures var b := NtBytes(plus, directory);
            && |b| == NtSize(plus) && Has(b, 0, LittleEndian('P' as int, W8)) && Has(b, 1, LittleEndian('E' as int, W8))
            && Has(b, 6, LittleEndian(1, W16)) && Has(b, 24, LittleEndian(if plus then 0x20b else 0x10b, W16))
            && Has(b, DirectoryAt(0, plus), LittleEndian(directory, W32))
  {}

  lemma DirectoryHas(names: nat, functions: nat, nameTable: nat, ordinals: nat)
    ensures var b := DirectoryBytes(names, functions, nameTable, ordinals);
            && |b| == 40 && Has(b, 20, LittleEndian(names + 1, W32)) && Has(b, 24, LittleEndian(names, W32))
            && Has(b, 28, LittleEndian(functions, W32)) && Has(b, 32, LittleEndian(nameTable, W32))
            && Has(b, 36, LittleEndian(ordinals, W32))
  {}

  // ----- whole files -----

  function DirectoryFrom(plus: bool): nat {
    DOS_SIZE + NtSize(plus)
  }

  function FunctionsFrom(plus: bool): nat {
    DirectoryFrom(plus) + 40
  }

  function NamesFrom(plus: bool, n: nat): nat {
    FunctionsFrom(plus) + 4 * (n + 1)
  }

  function OrdinalsFrom(plus: bool, n: nat): nat {
    NamesFrom(plus, n) + 4 * n
  }

  function StringsFrom(plus: bool, n: nat): nat {
    OrdinalsFrom(plus, n) + 2 * n
  }

  /** The names, each with its NUL. */
  function Names(defs: seq<Export>): seq<seq<Byte>> {
    seq(|defs|, i requires 0 <= i < |defs| => defs[i].name + [0])
  }

  function NameOffset(plus: bool, defs: seq<Export>, i: nat): nat
    requires i <= |defs|
  {
    StringsFrom(plus, |defs|) + |Concat(Names(defs)[..i])|
  }

  /** The addresses of the named functions, and of the one without a name. */
  function Addresses(defs: seq<Export>): (parts: seq<seq<Byte>>)
    ensures forall p :: p in parts ==> |p| == 4
  {
    seq(|defs|, i requires 0 <= i < |defs| => LittleEndian(defs[i].rva, W32)) + [LittleEndian(0, W32)]
  }

  function NameTable(plus: bool, defs: seq<Export>): (parts: seq<seq<Byte>>)
    ensures forall p :: p in parts ==> |p| == 4
  {
    seq(|defs|, i requires 0 <= i < |defs| => LittleEndian(NameOffset(plus, defs, i), W32))
  }

  function Ordinals(n: nat): (parts: seq<seq<Byte>>)
    ensures forall p :: p in parts ==> |p| == 2
  {
    seq(n, i => LittleEndian(i, W16))
  }

  function Headers(plus: bool, n: nat): seq<Byte> {
    DosBytes() + NtBytes(plus, DirectoryFrom(plus))
    + DirectoryBytes(n, FunctionsFrom(plus), NamesFrom(plus, n), OrdinalsFrom(plus, n))
  }

  /** The whole file: headers and export directory, the three tables, and the names. */
  function Encode(plus: bool, defs: seq<Export>): seq<Byte> {
    Headers(plus, |defs|) + Concat(Addresses(defs)) + Concat(NameTable(plus, defs)) + Concat(Ordinals(|defs|))
    + Concat(Names(defs))
  }

  function FileSize(plus: bool, defs: seq<Export>): nat {
    StringsFrom(plus, |defs|) + |Concat(Names(defs))|
  }

  /** The file stays below 4 GB, the ordinals below 2^16, and the names are C strings. */
  ghost predicate Writable(plus: bool, base: Word64, defs: seq<Export>) {
    && FileSize(plus, defs) < TWO_TO_32 && |defs| <= 0x1_0000 && base + FileSize(plus, defs) <= TWO_TO_64
    && forall i: nat :: i < |defs| ==> 0 !in defs[i].name && defs[i].rva < TWO_TO_32
  }

  lemma TableSizes(plus: bool, defs: seq<Export>)
    ensures |Concat(Addresses(defs))| == (|defs| + 1) * 4 && |Concat(NameTable(plus, defs))| == |defs| * 4
    ensures |Concat(Ordinals(|defs|))| == |defs| * 2
  {
    ConcatSize(Addresses(defs), 4);
    ConcatSize(NameTable(plus, defs), 4);
    ConcatSize(Ordinals(|defs|), 2);
  }

  lemma HeadersHave(plus: bool, n: nat)
    ensures var h := Headers(plus, n);
            && |h| == FunctionsFrom(plus) && Has(h, 0, DosBytes())
            && Has(h, DOS_SIZE, NtBytes(plus, DirectoryFrom(plus)))
            && Has(h, DirectoryFrom(plus),
                   DirectoryBytes(n, FunctionsFrom(plus), NamesFrom(plus, n), OrdinalsFrom(plus, n)))
  {
    hide DosBytes, NtBytes, DirectoryBytes;
    DosHas();
    NtHas(plus, DirectoryFrom(plus));
    DirectoryHas(n, FunctionsFrom(plus), NamesFrom(plus, n), OrdinalsFrom(plus, n));
    FiveParts(DosBytes(), NtBytes(plus, DirectoryFrom(plus)),
              DirectoryBytes(n, FunctionsFrom(plus), NamesFrom(plus, n), OrdinalsFrom(plus, n)), [], []);
    assert Headers(plus, n) + [] + [] == Headers(plus, n);
  }

  lemma FileHas(plus: bool, defs: seq<Export>)
    ensures var f := Encode(plus, defs);
            && |f| == FileSize(plus, defs) && Has(f, 0, Headers(plus, |defs|))
            && Has(f, FunctionsFrom(plus), Concat(Addresses(defs)))
            && Has(f, NamesFrom(plus, |defs|), Concat(NameTable(plus, defs)))
            && Has(f, OrdinalsFrom(plus, |defs|), Concat(Ordinals(|defs|)))
            && Has(f, StringsFrom(plus, |defs|), Concat(Names(defs)))
  {
    hide Headers, Concat, Addresses, NameTable, Ordinals, Names, Has;
    HeadersHave(plus, |defs|);
    TableSizes(plus, defs);
    FiveParts(Headers(plus, |defs|), Concat(Addresses(defs)), Concat(NameTable(plus, defs)), Concat(Ordinals(|defs|)),
              Concat(Names(defs)));
  }

  // ----- the file is laid out as the reader expects -----

  function LayoutOf(plus: bool, defs: seq<Export>): Layout
    requires FileSize(plus, defs) < TWO_TO_32 && |defs| <= 0x1_0000
  {
    var n := |defs|;
    Layout(DOS_SIZE, plus, 1, DirectoryFrom(plus), n + 1,
           Exports(n, FunctionsFrom(plus), NamesFrom(plus, n), OrdinalsFrom(plus, n)),
           seq(n, i requires 0 <= i < n => NameAt(plus, defs, i)), seq(n, i requires 0 <= i < n => Ordinal(i)))
  }

  function Ordinal(i: nat): Word64
    requires i < 0x1_0000
  {
    i
  }

  function NameAt(plus: bool, defs: seq<Export>, i: nat): Word64
    requires i < |defs| && FileSize(plus, defs) < TWO_TO_32
  {
    ConcatHas(Names(defs), i);
    NameOffset(plus, defs, i)
  }

  /** The file in guest memory. */
  ghost function Written(plus: bool, base: Word64, defs: seq<Export>): Memory
    requires Writable(plus, base, defs)
  {
    FileHas(plus, defs);
    Loaded(Encode(plus, defs), base)
  }

  lemma AllReadable(f: seq<Byte>, base: Word64, from: nat, to: nat)
    requires base + |f| <= TWO_TO_64 && to <= |f|
    ensures Stretch(Loaded(f, base), base, from, to)
  {
    assert Has(f, 0, f);
    HasInMemory(f, base, 0, f);
    forall i | from <= i < to
      ensures Read1(Loaded(f, base), base, i).Some?
    {
      assert Read1(Loaded(f, base), base + 0, 0 + i) == Some(f[i]);
    }
  }

  lemma HeadersWritten(plus: bool, base: Word64, defs: seq<Export>)
    requires Writable(plus, base, defs)
    ensures HeadersLaid(Written(plus, base, defs), base, LayoutOf(plus, defs))
  {
    hide DosBytes, NtBytes, DirectoryBytes, Concat, LittleEndian, Has, Loaded, WordAt, Encode;
    var f, nt, d := Encode(plus, defs), NtBytes(plus, DirectoryFrom(plus)), DirectoryFrom(plus);
    FileHas(plus, defs);
    HeadersHave(plus, |defs|);
    HasWithin(f, 0, Headers(plus, |defs|), 0, DosBytes());
    HasWithin(f, 0, Headers(plus, |defs|), DOS_SIZE, nt);
    DosHas();
    NtHas(plus, d);
    HasWord(f, base, 0, DosBytes(), 0, W16, 0x5a4d);
    HasWord(f, base, 0, DosBytes(), 60, W32, DOS_SIZE);
    HasWord(f, base, DOS_SIZE, nt, 0, W8, 'P' as int);
    HasWord(f, base, DOS_SIZE, nt, 1, W8, 'E' as int);
    HasWord(f, base, DOS_SIZE, nt, 6, W16, 1);
    HasWord(f, base, DOS_SIZE, nt, 24, W16, if plus then 0x20b else 0x10b);
    HasWord(f, base, DOS_SIZE, nt, DirectoryAt(0, plus), W32, d);
    AllReadable(f, base, DOS_SIZE, DirectoryFrom(plus));
  }

  lemma DirectoryWritten(plus: bool, base: Word64, defs: seq<Export>)
    requires Writable(plus, base, defs)
    ensures DirectoryLaid(Written(plus, base, defs), base, LayoutOf(plus, defs))
  {
    hide DosBytes, NtBytes, DirectoryBytes, Concat, LittleEndian, Has, Loaded, WordAt, Encode;
    var f, d, n := Encode(plus, defs), DirectoryFrom(plus), |defs|;
    var part := DirectoryBytes(n, FunctionsFrom(plus), NamesFrom(plus, n), OrdinalsFrom(plus, n));
    FileHas(plus, defs);
    HeadersHave(plus, n);
    HasWithin(f, 0, Headers(plus, n), d, part);
    DirectoryHas(n, FunctionsFrom(plus), NamesFrom(plus, n), OrdinalsFrom(plus, n));
    HasWord(f, base, d, part, 20, W32, n + 1);
    HasWord(f, base, d, part, 24, W32, n);
    HasWord(f, base, d, part, 28, W32, FunctionsFrom(plus));
    HasWord(f, base, d, part, 32, W32, NamesFrom(plus, n));
    HasWord(f, base, d, part, 36, W32, OrdinalsFrom(plus, n));
    AllReadable(f, base, d + 12, d + 16);
  }

  /** Number i of a table of words that stands in the file at `from`. */
  lemma TableWord(f: seq<Byte>, base: Word64, from: nat, parts: seq<seq<Byte>>, i: nat, w: Width, v: int)
    requires base + |f| <= TWO_TO_64 && Has(f, from, Concat(parts)) && i < |parts|
    requires (forall p :: p in parts ==> |p| == w.Bytes()) && parts[i] == LittleEndian(v, w) && 0 <= v < Limit(w)
    ensures WordAt(Loaded(f, base), base + (from + i * w.Bytes()), w, v)
  {
    hide Has, Concat, LittleEndian, Loaded, WordAt;
    RowHas(parts, i, w.Bytes());
    HasWord(f, base, from, Concat(parts), i * w.Bytes(), w, v);
  }

  lemma TablesWritten(f: seq<Byte>, plus: bool, base: Word64, defs: seq<Export>, i: nat)
    requires Writable(plus, base, defs) && base + |f| <= TWO_TO_64 && i < |defs| && NameAt(plus, defs, i) < TWO_TO_32
    requires Has(f, FunctionsFrom(plus), Concat(Addresses(defs)))
    requires Has(f, NamesFrom(plus, |defs|), Concat(NameTable(plus, defs)))
    requires Has(f, OrdinalsFrom(plus, |defs|), Concat(Ordinals(|defs|)))
    ensures WordAt(Loaded(f, base), base + (FunctionsFrom(plus) + 4 * i), W32, defs[i].rva)
    ensures WordAt(Loaded(f, base), base + (NamesFrom(plus, |defs|) + 4 * i), W32, NameAt(plus, defs, i))
    ensures WordAt(Loaded(f, base), base + (OrdinalsFrom(plus, |defs|) + 2 * i), W16, i)
  {
    hide Has, Concat, LittleEndian, Loaded, WordAt;
    TableWord(f, base, FunctionsFrom(plus), Addresses(defs), i, W32, defs[i].rva);
    TableWord(f, base, NamesFrom(plus, |defs|), NameTable(plus, defs), i, W32, NameAt(plus, defs, i));
    TableWord(f, base, OrdinalsFrom(plus, |defs|), Ordinals(|defs|), i, W16, i);
  }

  lemma ExportWritten(plus: bool, base: Word64, defs: seq<Export>, i: nat)
    requires Writable(plus, base, defs) && i < |defs|
    ensures ExportLaid(Written(plus, base, defs), base, LayoutOf(plus, defs), i, defs[i])
  {
    hide Has, Concat, LittleEndian, Loaded, WordAt, NameLaid, Addresses, NameTable, Ordinals, Encode;
    var f := Encode(plus, defs);
    FileHas(plus, defs);
    NameWritten(f, plus, base, defs, i);
    TablesWritten(f, plus, base, defs, i);
  }

  lemma NameWritten(f: seq<Byte>, plus: bool, base: Word64, defs: seq<Export>, i: nat)
    requires Writable(plus, base, defs) && base + |f| <= TWO_TO_64 && i < |defs|
    requires Has(f, StringsFrom(plus, |defs|), Concat(Names(defs)))
    ensures NameLaid(Loaded(f, base), base + NameAt(plus, defs, i), defs[i].name)
    ensures NameAt(plus, defs, i) + |defs[i].name| < TWO_TO_32
  {
    ConcatHas(Names(defs), i);
    HasWithin(f, StringsFrom(plus, |defs|), Concat(Names(defs)), |Concat(Names(defs)[..i])|, defs[i].name + [0]);
    HasInMemory(f, base, NameOffset(plus, defs, i), defs[i].name + [0]);
  }

  /** Round trip: the file that is written, in either format, is read back as exactly its named exports. */
  lemma EncodingParses(plus: bool, base: Word64, file: CString, defs: seq<Export>)
    requires Writable(plus, base, defs)
    ensures ParsePe(Written(plus, base, defs), base, file) == Outcome(Done, Listed(base, file, defs))
  {
    hide HeadersLaid, DirectoryLaid, ExportLaid, Written;
    HeadersWritten(plus, base, defs);
    DirectoryWritten(plus, base, defs);
    forall i: nat | i < |defs|
      ensures ExportLaid(Written(plus, base, defs), base, LayoutOf(plus, defs), i, defs[i])
    {
      ExportWritten(plus, base, defs, i);
    }
    LaidOutParses(Written(plus, base, defs), base, file, LayoutOf(plus, defs), defs);
  }
}
