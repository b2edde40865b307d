/** Two small ELF files, byte by byte, and their tracepoints: the files define a function "f" and an object "d". */
module ElfExample {
  import opened Words
  import opened GuestMemory
  import opened FunctionTable
  import opened ImageReading
  import opened BytesInImage
  import opened ElfReader
  import opened ElfLayout

  /** Guest memory holds these bytes from address a on. */
  ghost predicate Bytes(mem: Memory, a: int, bs: seq<Byte>) {
    forall k :: 0 <= k < |bs| ==>
                  (a + k) % 0x1_0000_0000_0000_0000 in mem && mem[(a + k) % 0x1_0000_0000_0000_0000] == bs[k]
  }

  /**
   ELF64: one program header at 64, of type 2; the dynamic section at 120, with tags 5, 6, 10 and 11; two symbols of
   24 bytes at 184, of which the first has info 0x12 and the second 0x11; and the names at 232.
   */
  ghost predicate File64(mem: Memory, b: Word64) {
    && Readable(mem, b, 52) && Bytes(mem, b, [0x7f, 0x45, 0x4c, 0x46, 2, 1, 1])
    && Bytes(mem, b + 32, [64, 0, 0, 0, 0, 0, 0, 0]) && Bytes(mem, b + 54, [56, 0]) && Bytes(mem, b + 56, [1, 0])
    && Bytes(mem, b + 64, [2, 0, 0, 0]) && Bytes(mem, b + 72, [120, 0, 0, 0, 0, 0, 0, 0])
    && Bytes(mem, b + 80, [120, 0, 0, 0, 0, 0, 0, 0]) && Bytes(mem, b + 96, [64, 0, 0, 0, 0, 0, 0, 0])
    && Bytes(mem, b + 104, [64, 0, 0, 0, 0, 0, 0, 0])
    && Bytes(mem, b + 120, [5, 0, 0, 0, 0, 0, 0, 0]) && Bytes(mem, b + 128, [232, 0, 0, 0, 0, 0, 0, 0])
    && Bytes(mem, b + 136, [6, 0, 0, 0, 0, 0, 0, 0]) && Bytes(mem, b + 144, [184, 0, 0, 0, 0, 0, 0, 0])
    && Bytes(mem, b + 152, [10, 0, 0, 0, 0, 0, 0, 0]) && Bytes(mem, b + 160, [5, 0, 0, 0, 0, 0, 0, 0])
    && Bytes(mem, b + 168, [11, 0, 0, 0, 0, 0, 0, 0]) && Bytes(mem, b + 176, [24, 0, 0, 0, 0, 0, 0, 0])
    && Bytes(mem, b + 184, [1, 0, 0, 0]) && Bytes(mem, b + 188, [0x12])
    && Bytes(mem, b + 192, [0, 5, 0, 0, 0, 0, 0, 0])
    && Bytes(mem, b + 208, [3, 0, 0, 0]) && Bytes(mem, b + 212, [0x11])
    && Bytes(mem, b + 216, [0, 9, 0, 0, 0, 0, 0, 0])
    && Bytes(mem, b + 233, [102, 0]) && Bytes(mem, b + 235, [100, 0])
  }

  /** ELF32: the same, with the program header at 52, the dynamic section at 84, symbols of 16 bytes at 116. */
  ghost predicate File32(mem: Memory, b: Word64) {
    && Readable(mem, b, 52) && Bytes(mem, b, [0x7f, 0x45, 0x4c, 0x46, 1, 1, 1])
    && Bytes(mem, b + 28, [52, 0, 0, 0]) && Bytes(mem, b + 42, [32, 0]) && Bytes(mem, b + 44, [1, 0])
    && Bytes(mem, b + 52, [2, 0, 0, 0]) && Bytes(mem, b + 56, [84, 0, 0, 0]) && Bytes(mem, b + 60, [84, 0, 0, 0])
    && Bytes(mem, b + 68, [32, 0, 0, 0]) && Bytes(mem, b + 72, [32, 0, 0, 0])
    && Bytes(mem, b + 84, [5, 0, 0, 0]) && Bytes(mem, b + 88, [148, 0, 0, 0])
    && Bytes(mem, b + 92, [6, 0, 0, 0]) && Bytes(mem, b + 96, [116, 0, 0, 0])
    && Bytes(mem, b + 100, [10, 0, 0, 0]) && Bytes(mem, b + 104, [5, 0, 0, 0])
    && Bytes(mem, b + 108, [11, 0, 0, 0]) && Bytes(mem, b + 112, [16, 0, 0, 0])
    && Bytes(mem, b + 116, [1, 0, 0, 0]) && Bytes(mem, b + 120, [0, 5, 0, 0]) && Bytes(mem, b + 128, [0x12])
    && Bytes(mem, b + 132, [3, 0, 0, 0]) && Bytes(mem, b + 136, [0, 9, 0, 0]) && Bytes(mem, b + 144, [0x11])
    && Bytes(mem, b + 149, [102, 0]) && Bytes(mem, b + 151, [100, 0])
  }

  const DEFS: seq<Definition> := [Definition([102], 0x500, 0x12), Definition([100], 0x900, 0x11)]

  const LAYOUT64: Layout :=
    Layout(64, 56, [Segment(2, 120, 120, 64, 64)], 0,
           [Entry(5, 232), Entry(6, 184), Entry(10, 5), Entry(11, 24)], [1, 3])

  const LAYOUT32: Layout :=
    Layout(52, 32, [Segment(2, 84, 84, 32, 32)], 0,
           [Entry(5, 148), Entry(6, 116), Entry(10, 5), Entry(11, 16)], [1, 3])

  lemma Laid(mem: Memory, a: int, bs: seq<Byte>)
    requires Bytes(mem, a, bs)
    ensures BytesFrom(mem, a, 0, bs)
  {}

  lemma Short(v: int)
    requires 0 <= v < 0x1_0000
    ensures LittleEndian(v, W16) == [v % 0x100, v / 0x100]
    ensures LittleEndian(v, W32) == [v % 0x100, v / 0x100, 0, 0]
    ensures LittleEndian(v, W64) == [v % 0x100, v / 0x100, 0, 0, 0, 0, 0, 0]
    ensures v < 0x100 ==> LittleEndian(v, W8) == [v]
  {}

  /** A number below 2^16, in any width. */
  lemma Small(mem: Memory, a: int, w: Width, v: int)
    requires 0 <= v < 0x1_0000
    requires match w
             case W8 => v < 0x100 && Bytes(mem, a, [v])
             case W16 => Bytes(mem, a, [v % 0x100, v / 0x100])
             case W32 => Bytes(mem, a, [v % 0x100, v / 0x100, 0, 0])
             case W64 => Bytes(mem, a, [v % 0x100, v / 0x100, 0, 0, 0, 0, 0, 0])
    ensures WordAt(mem, a, w, v)
  {
    Short(v);
    Laid(mem, a, LittleEndian(v, w));
  }

  lemma Start(mem: Memory, b: Word64, ident: seq<Byte>)
    requires Readable(mem, b, 52) && Bytes(mem, b, ident)
    ensures BytesFrom(mem, b, 0, ident) && forall i: nat :: i < 52 ==> Read1(mem, b, i).Some?
  {
    Laid(mem, b, ident);
    assert forall i: nat :: i < 52 ==> Add64(b, i) in mem;
  }

  lemma Name(mem: Memory, a: int, c: Byte)
    requires Bytes(mem, a, [c, 0]) && c != 0
    ensures NameLaid(mem, a, [c])
  {
    assert [c] + [0] == [c, 0];
    Laid(mem, a, [c, 0]);
  }

  lemma Front64(mem: Memory, b: Word64)
    requires File64(mem, b)
    ensures HeaderLaid(mem, b, true, LAYOUT64) && SegmentsLaid(mem, b, true, LAYOUT64)
  {
    hide Bytes, WordAt;
    Start(mem, b, [0x7f, 0x45, 0x4c, 0x46, 2, 1, 1]);
    Small(mem, b + 32, W64, 64);
    Small(mem, b + 54, W16, 56);
    Small(mem, b + 56, W16, 1);
    Small(mem, b + 64, W32, 2);
    Small(mem, b + 72, W64, 120);
    Small(mem, b + 80, W64, 120);
    Small(mem, b + 96, W64, 64);
    Small(mem, b + 104, W64, 64);
  }

  lemma Dynamic64(mem: Memory, b: Word64)
    requires File64(mem, b)
    ensures DynamicLaid(mem, b, true, LAYOUT64)
  {
    hide Bytes, WordAt;
    Small(mem, b + 120, W64, 5);
    Small(mem, b + 128, W64, 232);
    Small(mem, b + 136, W64, 6);
    Small(mem, b + 144, W64, 184);
    Small(mem, b + 152, W64, 10);
    Small(mem, b + 160, W64, 5);
    Small(mem, b + 168, W64, 11);
    Small(mem, b + 176, W64, 24);
  }

  lemma TablesFound(l: Layout, base: Word64)
    requires |l.entries| == 4 && l.entries[0].tag == 5 && l.entries[1].tag == 6 && l.entries[2].tag == 10
             && l.entries[3].tag == 11
    ensures TablesOf(l.entries, base) == Tables(InFile(l.entries[0].val, base), InFile(l.entries[1].val, base),
                                                l.entries[2].val, l.entries[3].val)
  {
    var es := l.entries;
    assert es[..3][..2] == es[..2] && es[..2][..1] == es[..1];
    assert LastVal(es[..1], 5) == es[0].val && LastVal(es[..2], 5) == es[0].val && LastVal(es[..3], 5) == es[0].val;
    assert LastVal(es[..2], 6) == es[1].val && LastVal(es[..3], 6) == es[1].val;
    assert LastVal(es[..3], 10) == es[2].val;
  }

  lemma Symbols64(mem: Memory, b: Word64)
    requires File64(mem, b) && 0x1000 <= b
    ensures SymbolsLaid(mem, b, true, LAYOUT64, DEFS)
  {
    hide Bytes, WordAt, TablesOf, NameLaid;
    TablesFound(LAYOUT64, b);
    Small(mem, b + 184, W32, 1);
    Small(mem, b + 188, W8, 0x12);
    Small(mem, b + 192, W64, 0x500);
    Small(mem, b + 208, W32, 3);
    Small(mem, b + 212, W8, 0x11);
    Small(mem, b + 216, W64, 0x900);
    Name(mem, b + 233, 102);
    Name(mem, b + 235, 100);
  }

  lemma Front32(mem: Memory, b: Word64)
    requires File32(mem, b)
    ensures HeaderLaid(mem, b, false, LAYOUT32) && SegmentsLaid(mem, b, false, LAYOUT32)
  {
    hide Bytes, WordAt;
    Start(mem, b, [0x7f, 0x45, 0x4c, 0x46, 1, 1, 1]);
    Small(mem, b + 28, W32, 52);
    Small(mem, b + 42, W16, 32);
    Small(mem, b + 44, W16, 1);
    Small(mem, b + 52, W32, 2);
    Small(mem, b + 56, W32, 84);
    Small(mem, b + 60, W32, 84);
    Small(mem, b + 68, W32, 32);
    Small(mem, b + 72, W32, 32);
  }

  lemma Dynamic32(mem: Memory, b: Word64)
    requires File32(mem, b)
    ensures DynamicLaid(mem, b, false, LAYOUT32)
  {
    hide Bytes, WordAt;
    Small(mem, b + 84, W32, 5);
    Small(mem, b + 88, W32, 148);
    Small(mem, b + 92, W32, 6);
    Small(mem, b + 96, W32, 116);
    Small(mem, b + 100, W32, 10);
    Small(mem, b + 104, W32, 5);
    Small(mem, b + 108, W32, 11);
    Small(mem, b + 112, W32, 16);
  }

  lemma Symbols32(mem: Memory, b: Word64)
    requires File32(mem, b) && 0x1000 <= b
    ensures SymbolsLaid(mem, b, false, LAYOUT32, DEFS)
  {
    hide Bytes, WordAt, TablesOf, NameLaid;
    TablesFound(LAYOUT32, b);
    Small(mem, b + 116, W32, 1);
    Small(mem, b + 120, W32, 0x500);
    Small(mem, b + 128, W8, 0x12);
    Small(mem, b + 132, W32, 3);
    Small(mem, b + 136, W32, 0x900);
    Small(mem, b + 144, W8, 0x11);
    Name(mem, b + 149, 102);
    Name(mem, b + 151, 100);
  }

  lemma OnlyF(base: Word64)
    ensures Listed(base, Text([97]), DEFS) ==
            [Tracepoint((base + 0x500) % 0x1_0000_0000_0000_0000, [97, 58, 102])]
  {
    assert DEFS[1..] == [DEFS[1]] && DEFS[1..][1..] == [];
    assert Labelled(Text([97]), [102]) == [97, 58, 102];
  }

  /** Loaded as "a", the ELF64 file gives the one tracepoint "a:f", at 0x500 after the image base. */
  lemma Parsed64(mem: Memory, base: Word64)
    requires File64(mem, base) && 0x1000 <= base
    ensures Parse(mem, base, Text([97])) ==
            Outcome(Done, [Tracepoint((base + 0x500) % 0x1_0000_0000_0000_0000, [97, 58, 102])])
  {
    hide File64, Parse, HeaderLaid, SegmentsLaid, DynamicLaid, SymbolsLaid, Listed;
    Front64(mem, base);
    Dynamic64(mem, base);
    Symbols64(mem, base);
    LaidOutParses(mem, base, Text([97]), true, LAYOUT64, DEFS);
    OnlyF(base);
  }

  /** The ELF32 file gives the same. */
  lemma Parsed32(mem: Memory, base: Word64)
    requires File32(mem, base) && 0x1000 <= base
    ensures Parse(mem, base, Text([97])) ==
            Outcome(Done, [Tracepoint((base + 0x500) % 0x1_0000_0000_0000_0000, [97, 58, 102])])
  {
    hide File32, Parse, HeaderLaid, SegmentsLaid, DynamicLaid, SymbolsLaid, Listed;
    Front32(mem, base);
    Dynamic32(mem, base);
    Symbols32(mem, base);
    LaidOutParses(mem, base, Text([97]), false, LAYOUT32, DEFS);
    OnlyF(base);
  }
}
