/** A snapshot of guest memory: a partial map from address to byte, read in little-endian words. */
module GuestMemory {
  import opened Words

  type Memory = map<Word64, Byte>

  datatype Width = W8 | W16 | W32 | W64 {
    function Bytes(): nat {
      match this case W8 => 1 case W16 => 2 case W32 => 4 case W64 => 8
    }
  }

  /** The byte i places after a. */
  function Read1(mem: Memory, a: int, i: int): Option<Word64> {
    if Add64(a, i) in mem then Some(mem[Add64(a, i)]) else None
  }

  function Pair(lo: Option<Word64>, hi: Option<Word64>, unit: Word64): (r: Option<int>) {
    if lo.Some? && hi.Some? then Some(lo.value + unit * hi.value) else None
  }

  function Read2(mem: Memory, a: int, i: int): (r: Option<Word64>)
    ensures r.Some? ==> r.value < 0x1_0000
  {
    Pair(Read1(mem, a, i), Read1(mem, a, i + 1), 0x100)
  }

  function Read4(mem: Memory, a: int, i: int): (r: Option<Word64>)
    ensures r.Some? ==> r.value < 0x1_0000_0000
  {
    Pair(Read2(mem, a, i), Read2(mem, a, i + 2), 0x1_0000)
  }

  /** qemulib_read_memory of one scalar: fails as soon as one byte is not readable. */
  function Read(mem: Memory, a: int, w: Width): Option<Word64> {
    match w
    case W8 => Read1(mem, a, 0)
    case W16 => Read2(mem, a, 0)
    case W32 => Read4(mem, a, 0)
    case W64 => Pair(Read4(mem, a, 0), Read4(mem, a, 4), 0x1_0000_0000)
  }

  /** The addresses of n bytes from a on. */
  function Span(a: int, n: nat): set<Word64> {
    set i | 0 <= i < n :: Add64(a, i)
  }

  predicate Readable(mem: Memory, a: int, n: nat) {
    forall i | 0 <= i < n :: Add64(a, i) in mem
  }

  /** Whatever mem can read, mem' reads as the same bytes. */
  ghost predicate Extends(mem: Memory, mem': Memory) {
    forall a :: a in mem ==> a in mem' && mem'[a] == mem[a]
  }

  /** The two memories differ at most on the addresses of `changed`. */
  ghost predicate AgreeOutside(mem: Memory, mem': Memory, changed: set<Word64>) {
    forall a :: a !in changed ==> (a in mem <==> a in mem') && (a in mem ==> mem'[a] == mem[a])
  }

  /** A scalar is readable exactly when all its bytes are. */
  lemma ReadNeedsAllBytes(mem: Memory, a: int, w: Width)
    ensures Read(mem, a, w).Some? <==> Readable(mem, a, w.Bytes())
  {
    var n := w.Bytes();
    assert forall i :: 0 <= i < n ==> (Add64(a, i) in mem <==> Read1(mem, a, i).Some?);
  }

  lemma ReadExtends(mem: Memory, mem': Memory, a: int, w: Width)
    requires Extends(mem, mem')
    ensures Read(mem, a, w).Some? ==> Read(mem', a, w) == Read(mem, a, w)
  {}

  lemma ReadAgrees(mem: Memory, mem': Memory, changed: set<Word64>, a: int, w: Width)
    requires AgreeOutside(mem, mem', changed) && Span(a, w.Bytes()) !! changed
    ensures Read(mem', a, w) == Read(mem, a, w)
  {
    var n := w.Bytes();
    forall i | 0 <= i < n
      ensures Read1(mem', a, i) == Read1(mem, a, i)
    {
      assert Add64(a, i) in Span(a, n);
    }
  }

  // ----- little-endian encodings -----

  function Bytes2(v: int): seq<Byte> {
    [v % 0x100, v / 0x100 % 0x100]
  }

  function Bytes4(v: int): seq<Byte> {
    Bytes2(v) + Bytes2(v / 0x1_0000)
  }

  function LittleEndian(v: int, w: Width): (bs: seq<Byte>)
    ensures |bs| == w.Bytes()
  {
    match w
    case W8 => [v % 0x100]
    case W16 => Bytes2(v)
    case W32 => Bytes4(v)
    case W64 => Bytes4(v) + Bytes4(v / 0x1_0000_0000)
  }

  function Limit(w: Width): int {
    match w case W8 => 0x100 case W16 => 0x1_0000 case W32 => 0x1_0000_0000 case W64 => TWO_TO_64
  }

  /** These bytes are in memory from place i after a on. */
  ghost predicate BytesFrom(mem: Memory, a: int, i: int, bs: seq<Byte>) {
    forall k :: 0 <= k < |bs| ==> Read1(mem, a, i + k) == Some(bs[k])
  }

  /** The encoding of v is in memory at a. */
  ghost predicate WordAt(mem: Memory, a: int, w: Width, v: int) {
    0 <= v < Limit(w) && BytesFrom(mem, a, 0, LittleEndian(v, w))
  }

  lemma ReadsBack2(mem: Memory, a: int, i: int, v: int)
    requires BytesFrom(mem, a, i, Bytes2(v))
    ensures Read2(mem, a, i) == Some(v % 0x1_0000)
  {
    assert Bytes2(v)[0] == v % 0x100 && Bytes2(v)[1] == v / 0x100 % 0x100;
    assert Read1(mem, a, i + 0) == Some(v % 0x100);
  }

  lemma BytesSplit(mem: Memory, a: int, i: int, lo: seq<Byte>, hi: seq<Byte>)
    requires BytesFrom(mem, a, i, lo + hi)
    ensures BytesFrom(mem, a, i, lo) && BytesFrom(mem, a, i + |lo|, hi)
  {
    forall k | 0 <= k < |lo|
      ensures Read1(mem, a, i + k) == Some(lo[k])
    {
      assert (lo + hi)[k] == lo[k];
    }
    forall k | 0 <= k < |hi|
      ensures Read1(mem, a, i + |lo| + k) == Some(hi[k])
    {
      assert Read1(mem, a, i + (|lo| + k)) == Some((lo + hi)[|lo| + k]);
    }
  }

  lemma Halves(v: int)
    ensures v % 0x1_0000 + 0x1_0000 * (v / 0x1_0000 % 0x1_0000) == v % 0x1_0000_0000
  {}

  lemma ReadsBack4(mem: Memory, a: int, i: int, v: int)
    requires BytesFrom(mem, a, i, Bytes4(v))
    ensures Read4(mem, a, i) == Some(v % 0x1_0000_0000)
  {
    hide Read2, BytesFrom;
    var high := v / 0x1_0000;
    BytesSplit(mem, a, i, Bytes2(v), Bytes2(high));
    ReadsBack2(mem, a, i, v);
    ReadsBack2(mem, a, i + 2, high);
    Halves(v);
  }

  lemma HighHalf(v: int)
    requires 0 <= v < TWO_TO_64
    ensures v / 0x1_0000_0000 % 0x1_0000_0000 == v / 0x1_0000_0000
    ensures v % 0x1_0000_0000 + 0x1_0000_0000 * (v / 0x1_0000_0000) == v
  {}

  lemma ReadsBack8(mem: Memory, a: int, v: int)
    requires BytesFrom(mem, a, 0, Bytes4(v) + Bytes4(v / 0x1_0000_0000)) && 0 <= v < TWO_TO_64
    ensures Read(mem, a, W64) == Some(v)
  {
    hide Read4, BytesFrom;
    var high := v / 0x1_0000_0000;
    BytesSplit(mem, a, 0, Bytes4(v), Bytes4(high));
    ReadsBack4(mem, a, 0, v);
    ReadsBack4(mem, a, 4, high);
    HighHalf(v);
  }

  /** A scalar whose encoding is in memory reads back as itself. */
  lemma ReadsBack(mem: Memory, a: int, w: Width, v: int)
    requires WordAt(mem, a, w, v)
    ensures Read(mem, a, w) == Some(v)
  {
    hide Bytes2, Bytes4, Read2, Read4;
    match w
    case W8 => assert LittleEndian(v, w)[0] == v;
    case W16 => ReadsBack2(mem, a, 0, v);
    case W32 => ReadsBack4(mem, a, 0, v);
    case W64 => ReadsBack8(mem, a, v);
  }

  /** Guest memory holds the byte v at a. */
  ghost predicate Holds1(mem: Memory, a: int, v: Byte) {
    a % 0x1_0000_0000_0000_0000 in mem && mem[a % 0x1_0000_0000_0000_0000] == v
  }

  /** Numbers are little-endian, and addresses wrap around at 2^64. */
  lemma ReadIsLittleEndian(mem: Memory, a: int, b0: Byte, b1: Byte, b2: Byte, b3: Byte,
                           b4: Byte, b5: Byte, b6: Byte, b7: Byte)
    requires Holds1(mem, a, b0)
    ensures Read(mem, a, W8) == Some(b0)
    ensures Holds1(mem, a + 1, b1) ==> Read(mem, a, W16) == Some(b0 + 0x100 * b1)
    ensures Holds1(mem, a + 1, b1) && Holds1(mem, a + 2, b2) && Holds1(mem, a + 3, b3) ==>
              Read(mem, a, W32) == Some(b0 + 0x100 * b1 + 0x1_0000 * b2 + 0x100_0000 * b3)
    ensures Holds1(mem, a + 1, b1) && Holds1(mem, a + 2, b2) && Holds1(mem, a + 3, b3) && Holds1(mem, a + 4, b4)
            && Holds1(mem, a + 5, b5) && Holds1(mem, a + 6, b6) && Holds1(mem, a + 7, b7) ==>
              Read(mem, a, W64) ==
              Some(b0 + 0x100 * b1 + 0x1_0000 * b2 + 0x100_0000 * b3
                   + 0x1_0000_0000 * (b4 + 0x100 * b5 + 0x1_0000 * b6 + 0x100_0000 * b7))
  {
    HoldsReads(mem, a, 0, b0);
    if Holds1(mem, a + 1, b1) && Holds1(mem, a + 2, b2) && Holds1(mem, a + 3, b3) {
      HoldsReads(mem, a, 1, b1);
      HoldsReads(mem, a, 2, b2);
      HoldsReads(mem, a, 3, b3);
      if Holds1(mem, a + 4, b4) && Holds1(mem, a + 5, b5) && Holds1(mem, a + 6, b6) && Holds1(mem, a + 7, b7) {
        HoldsReads(mem, a, 4, b4);
        HoldsReads(mem, a, 5, b5);
        HoldsReads(mem, a, 6, b6);
        HoldsReads(mem, a, 7, b7);
      }
    }
  }

  lemma HoldsReads(mem: Memory, a: int, i: int, v: Byte)
    requires Holds1(mem, a + i, v)
    ensures Read1(mem, a, i) == Some(v)
  {}
}
