/** helper.c: vmi_strdupw copies a UTF-16 guest string in two passes, unit by unit. */
module WideString {
  import opened Words
  import opened GuestMemory

  type Unit = x: int | 0 <= x < 0x1_0000

  // ----- byte forms (section 3 of RFC 3629, surrogates taken as units of their own) -----

  /** g_unichar_to_utf8 with a NULL buffer: the number of bytes. */
  function Utf8Size(c: Unit): nat {
    if c < 0x80 then 1 else if c < 0x800 then 2 else 3
  }

  /** g_unichar_to_utf8: the bytes. */
  function Utf8(c: Unit): (r: seq<Byte>)
    ensures |r| == Utf8Size(c)
  {
    if c < 0x80 then [c]
    else if c < 0x800 then [0xc0 + c / 64, 0x80 + c % 64]
    else [0xe0 + c / 4096, 0x80 + c / 64 % 64, 0x80 + c % 64]
  }

  /** The table of RFC 3629, section 3: the bits of a unit, in groups of six, after the marks 110, 1110 and 10. */
  lemma Utf8Table(x: int, y: int, z: int)
    requires 0 <= x < 16 && 0 <= y < 64 && 0 <= z < 64
    ensures x == 0 && y < 2 ==> Utf8(64 * y + z) == [64 * y + z]
    ensures x == 0 && 2 <= y < 32 ==> Utf8(64 * y + z) == [0xc0 + y, 0x80 + z]
    ensures x != 0 || 32 <= y ==> Utf8(4096 * x + 64 * y + z) == [0xe0 + x, 0x80 + y, 0x80 + z]
  {
    var c := 4096 * x + 64 * y + z;
    assert c / 64 == 64 * x + y && c % 64 == z;
    assert c / 4096 == x && (64 * x + y) % 64 == y;
  }

  function Encode(us: seq<Unit>): seq<Byte> {
    if us == [] then [] else Utf8(us[0]) + Encode(us[1..])
  }

  predicate Continuation(b: Byte) {
    0x80 <= b < 0xc0
  }

  datatype Front = Front(unit: Unit, size: nat)

  /** The first unit of a byte string in shortest form, and how many bytes it takes. */
  function DecodeOne(bs: seq<Byte>): Option<Front>
    requires bs != []
  {
    var b0: int := bs[0];
    if b0 < 0x80 then Some(Front(b0, 1))
    else if 0xc2 <= b0 < 0xe0 && |bs| >= 2 && Continuation(bs[1]) then
      var b1: int := bs[1];
      Some(Front((b0 - 0xc0) * 64 + (b1 - 0x80), 2))
    else if 0xe0 <= b0 < 0xf0 && |bs| >= 3 && Continuation(bs[1]) && Continuation(bs[2])
            && (b0 == 0xe0 ==> 0xa0 <= bs[1]) then
      var b1: int, b2: int := bs[1], bs[2];
      Some(Front((b0 - 0xe0) * 4096 + (b1 - 0x80) * 64 + (b2 - 0x80), 3))
    else None
  }

  function Decode(bs: seq<Byte>): Option<seq<Unit>> {
    if bs == [] then Some([])
    else match DecodeOne(bs)
      case None => None
      case Some(Front(c, n)) =>
        if n == 0 || n > |bs| then None
        else match Decode(bs[n..])
          case None => None
          case Some(us) => Some([c] + us)
  }

  lemma DecodeOneInverts(bs: seq<Byte>, c: Unit)
    requires bs != []
    ensures DecodeOne(bs) == Some(Front(c, Utf8Size(c))) <==> Utf8(c) <= bs
  {
    assert c / 64 == c / 4096 * 64 + c / 64 % 64;
  }

  lemma DecodeOneIsMinimal(bs: seq<Byte>)
    requires bs != [] && DecodeOne(bs).Some?
    ensures DecodeOne(bs).value.size == Utf8Size(DecodeOne(bs).value.unit)
  {}

  /** A byte string decodes to `us` exactly when it is the encoding of `us`. */
  lemma {:induction false} DecodeInvertsEncode(us: seq<Unit>, bs: seq<Byte>)
    ensures Decode(bs) == Some(us) <==> bs == Encode(us)
    decreases |bs|
  {
    if bs != [] && us != [] {
      DecodeOneInverts(bs, us[0]);
      if DecodeOne(bs).Some? {
        DecodeOneIsMinimal(bs);
      }
      if Utf8(us[0]) <= bs {
        var rest := bs[Utf8Size(us[0])..];
        DecodeInvertsEncode(us[1..], rest);
        assert bs == Utf8(us[0]) + rest && us == [us[0]] + us[1..];
        assert Decode(bs) == Some(us) <==> Decode(rest) == Some(us[1..]);
      }
    }
  }

  lemma {:induction false} EncodeBound(us: seq<Unit>)
    ensures |us| <= |Encode(us)| <= 3 * |us|
  {
    if us != [] {
      EncodeBound(us[1..]);
    }
  }

  lemma {:induction false} EncodeConcat(us: seq<Unit>, more: seq<Unit>)
    ensures Encode(us + more) == Encode(us) + Encode(more)
  {
    if us == [] {
      assert us + more == more;
    } else {
      assert (us + more)[1..] == us[1..] + more;
      EncodeConcat(us[1..], more);
    }
  }

  // ----- the scan -----

  /** The code unit i places after addr, where both its bytes are readable. */
  function UnitAt(mem: Memory, addr: Word64, i: nat): (r: Option<Unit>) {
    Read2(mem, addr + 2 * i, 0)
  }

  /** The loop variable after unit i: a failed read leaves it as it was, first of all with the value c0. */
  function Seen(mem: Memory, addr: Word64, c0: Unit, i: nat): Unit {
    match UnitAt(mem, addr, i)
    case Some(c) => c
    case None => if i == 0 then c0 else Seen(mem, addr, c0, i - 1)
  }

  /** The do-while condition fails after unit i. */
  predicate Stops(mem: Memory, addr: Word64, maxlen: Word64, c0: Unit, i: nat) {
    Seen(mem, addr, c0, i) == 0 || (maxlen != 0 && i + 1 >= maxlen)
  }

  /** The scan ends after exactly n units. */
  ghost predicate ScanLength(mem: Memory, addr: Word64, maxlen: Word64, c0: Unit, n: nat) {
    n > 0 && Stops(mem, addr, maxlen, c0, n - 1) && forall i: nat :: i < n - 1 ==> !Stops(mem, addr, maxlen, c0, i)
  }

  function SeenUnits(mem: Memory, addr: Word64, c0: Unit, n: nat): (us: seq<Unit>)
    ensures |us| == n && forall i :: 0 <= i < n ==> us[i] == Seen(mem, addr, c0, i)
  {
    if n == 0 then [] else SeenUnits(mem, addr, c0, n - 1) + [Seen(mem, addr, c0, n - 1)]
  }

  lemma EncodeNext(mem: Memory, addr: Word64, c0: Unit, n: nat)
    ensures Encode(SeenUnits(mem, addr, c0, n + 1)) ==
            Encode(SeenUnits(mem, addr, c0, n)) + Utf8(Seen(mem, addr, c0, n))
  {
    EncodeConcat(SeenUnits(mem, addr, c0, n), [Seen(mem, addr, c0, n)]);
    assert Encode([Seen(mem, addr, c0, n)]) == Utf8(Seen(mem, addr, c0, n)) + Encode([]);
  }

  lemma {:induction false} EncodePrefix(mem: Memory, addr: Word64, c0: Unit, k: nat, n: nat)
    requires k <= n
    ensures Encode(SeenUnits(mem, addr, c0, k)) <= Encode(SeenUnits(mem, addr, c0, n))
    decreases n
  {
    if k < n {
      EncodePrefix(mem, addr, c0, k, n - 1);
      EncodeNext(mem, addr, c0, n - 1);
    }
  }

  /** Pass one: counts units and bytes. */
  method CountPass(mem: Memory, addr: Word64, maxlen: Word64, c0: Unit, ghost n: nat) returns (bytes: nat, c: Unit)
    requires ScanLength(mem, addr, maxlen, c0, n)
    ensures bytes == |Encode(SeenUnits(mem, addr, c0, n))| && c == Seen(mem, addr, c0, n - 1)
  {
    c, bytes := c0, 0;
    var len: nat, more := 0, true;
    while more
      invariant len <= n && (more <==> len < n)
      invariant c == if len == 0 then c0 else Seen(mem, addr, c0, len - 1)
      invariant bytes == |Encode(SeenUnits(mem, addr, c0, len))|
      decreases n - len
    {
      var unit := UnitAt(mem, addr, len);
      c := if unit.Some? then unit.value else c;
      EncodeNext(mem, addr, c0, len);
      len, bytes := len + 1, bytes + Utf8Size(c);
      more := c != 0 && (maxlen == 0 || len < maxlen);
      assert more <==> !Stops(mem, addr, maxlen, c0, len - 1);
    }
  }

  /** The second pass starts with the last value of the first and still sees the same units. */
  ghost predicate PassesAgree(mem: Memory, addr: Word64, maxlen: Word64, c0: Unit, n: nat)
    requires n > 0
  {
    var c1 := Seen(mem, addr, c0, n - 1);
    ScanLength(mem, addr, maxlen, c1, n) && SeenUnits(mem, addr, c1, n) == SeenUnits(mem, addr, c0, n)
  }

  /** The bytes of the units that a pass sees when the loop variable starts as c0 and the scan ends after n units. */
  function Scanned(mem: Memory, addr: Word64, c0: Unit, n: nat): seq<Byte> {
    Encode(SeenUnits(mem, addr, c0, n))
  }

  /**
   Pass two starts with what pass one, of n units, left in the loop variable. It ends after as many units, unless it
   starts with 0 and keeps that value for the first unit.
   */
  function SecondLength(mem: Memory, addr: Word64, c0: Unit, n: nat): nat
    requires n > 0
  {
    if Seen(mem, addr, c0, n - 1) == 0 && UnitAt(mem, addr, 0).None? then 1 else n
  }

  /** The bytes that pass two writes after a pass one of n units. */
  function Rewritten(mem: Memory, addr: Word64, c0: Unit, n: nat): seq<Byte>
    requires n > 0
  {
    Scanned(mem, addr, Seen(mem, addr, c0, n - 1), SecondLength(mem, addr, c0, n))
  }

  /**
   What is left in the loop variable does no harm: it is overwritten by the first unit, or it is its own first value,
   or it ends pass two at once, or it is not longer in bytes than the first value.
   */
  ghost predicate HarmlessStart(mem: Memory, addr: Word64, c0: Unit, n: nat)
    requires n > 0
  {
    var c1 := Seen(mem, addr, c0, n - 1);
    || UnitAt(mem, addr, 0).Some?
    || (forall i: nat :: i < n ==> UnitAt(mem, addr, i).None?)
    || c1 == 0
    || Utf8Size(c1) <= Utf8Size(c0)
  }

  /** vmi_strdupw */
  method Strdupw(mem: Memory, addr: Word64, maxlen: Word64, c0: Unit, ghost n: nat) returns (str: array?<Byte>)
    requires addr != 0 ==> ScanLength(mem, addr, maxlen, c0, n) && HarmlessStart(mem, addr, c0, n)
    ensures addr == 0 <==> str == null
    ensures str != null ==>
              var written := Rewritten(mem, addr, c0, n);
              fresh(str) && |written| < str.Length && str[..|written| + 1] == written + [0]
    ensures str != null && PassesAgree(mem, addr, maxlen, c0, n) ==> str[..] == Scanned(mem, addr, c0, n) + [0]
  {
    if addr == 0 {
      return null;
    }
    var count, c := CountPass(mem, addr, maxlen, c0, n);
    str := new Byte[count + 1];
    var bytes := WritePass(mem, addr, maxlen, c0, c, n, str);
    str[bytes] := 0;
    if PassesAgree(mem, addr, maxlen, c0, n) {
      SecondScan(mem, addr, maxlen, c0, n, n);
    }
  }

  /** The bytes after unit k are those before it and its form, and there are no more than at the end. */
  lemma NextForm(mem: Memory, addr: Word64, c0: Unit, k: nat, n: nat)
    requires k < n
    ensures Scanned(mem, addr, c0, k + 1) == Scanned(mem, addr, c0, k) + Utf8(Seen(mem, addr, c0, k))
    ensures |Scanned(mem, addr, c0, k)| + Utf8Size(Seen(mem, addr, c0, k)) <= |Scanned(mem, addr, c0, n)|
  {
    EncodeNext(mem, addr, c0, k);
    EncodePrefix(mem, addr, c0, k + 1, n);
  }

  /** Pass two: writes the bytes; its loop variable starts with what pass one left. */
  method WritePass(mem: Memory, addr: Word64, maxlen: Word64, ghost c0: Unit, c1: Unit, ghost n: nat, str: array<Byte>)
    returns (bytes: nat)
    requires ScanLength(mem, addr, maxlen, c0, n) && c1 == Seen(mem, addr, c0, n - 1)
    requires HarmlessStart(mem, addr, c0, n) && str.Length == |Scanned(mem, addr, c0, n)| + 1
    modifies str
    ensures bytes < str.Length && str[..bytes] == Rewritten(mem, addr, c0, n)
  {
    ghost var n2 := SecondLength(mem, addr, c0, n);
    assert ScanLength(mem, addr, maxlen, c1, n2) && |Scanned(mem, addr, c1, n2)| < str.Length by {
      SecondScan(mem, addr, maxlen, c0, n, n2);
      SecondPassFitsExactly(mem, addr, maxlen, c0, n);
    }
    var c, len: nat, more := c1, 0, true;
    bytes := 0;
    while more
      invariant len <= n2 && (more <==> len < n2)
      invariant c == if len == 0 then c1 else Seen(mem, addr, c1, len - 1)
      invariant bytes < str.Length && str[..bytes] == Scanned(mem, addr, c1, len)
      decreases n2 - len
    {
      var unit := UnitAt(mem, addr, len);
      c := if unit.Some? then unit.value else c;
      assert c == Seen(mem, addr, c1, len);
      NextForm(mem, addr, c1, len, n2);
      Put(str, bytes, c);
      assert str[..bytes + Utf8Size(c)] == Scanned(mem, addr, c1, len + 1);
      len, bytes := len + 1, bytes + Utf8Size(c);
      more := c != 0 && (maxlen == 0 || len < maxlen);
      assert more <==> !Stops(mem, addr, maxlen, c1, len - 1);
    }
  }

  /** g_unichar_to_utf8 into the buffer. */
  method Put(str: array<Byte>, at: nat, c: Unit)
    requires at + Utf8Size(c) <= str.Length
    modifies str
    ensures str[..at + Utf8Size(c)] == old(str[..at]) + Utf8(c)
  {
    var form := Utf8(c);
    var i := 0;
    while i < |form|
      invariant 0 <= i <= |form|
      invariant str[..at + i] == old(str[..at]) + form[..i]
    {
      str[at + i] := form[i];
      i := i + 1;
    }
  }

  // ----- what a pass sees -----

  lemma {:induction false} SeenForgets(mem: Memory, addr: Word64, c0: Unit, c1: Unit, m: nat, i: nat)
    requires m <= i && UnitAt(mem, addr, m).Some?
    ensures Seen(mem, addr, c1, i) == Seen(mem, addr, c0, i)
    decreases i
  {
    if m < i {
      SeenForgets(mem, addr, c0, c1, m, i - 1);
    }
  }

  lemma {:induction false} SeenKeeps(mem: Memory, addr: Word64, c0: Unit, i: nat)
    requires forall k: nat :: k <= i ==> UnitAt(mem, addr, k).None?
    ensures Seen(mem, addr, c0, i) == c0
    decreases i
  {
    if i > 0 {
      SeenKeeps(mem, addr, c0, i - 1);
    }
  }

  lemma {:induction false} FirstStop(mem: Memory, addr: Word64, maxlen: Word64, c0: Unit, k: nat) returns (n: nat)
    requires Stops(mem, addr, maxlen, c0, k)
    ensures ScanLength(mem, addr, maxlen, c0, n)
    decreases k
  {
    if i: nat :| i < k && Stops(mem, addr, maxlen, c0, i) {
      n := FirstStop(mem, addr, maxlen, c0, i);
    } else {
      n := k + 1;
    }
  }

  lemma {:induction false} FirstReadable(mem: Memory, addr: Word64, k: nat) returns (m: nat)
    requires UnitAt(mem, addr, k).Some?
    ensures m <= k && UnitAt(mem, addr, m).Some? && forall i: nat :: i < m ==> UnitAt(mem, addr, i).None?
    decreases k
  {
    if i: nat :| i < k && UnitAt(mem, addr, i).Some? {
      m := FirstReadable(mem, addr, i);
    } else {
      m := k;
    }
  }

  // ----- when the second pass stays inside the buffer -----

  lemma OneScanLength(mem: Memory, addr: Word64, maxlen: Word64, c0: Unit, n: nat, n2: nat)
    requires ScanLength(mem, addr, maxlen, c0, n) && ScanLength(mem, addr, maxlen, c0, n2)
    ensures n == n2
  {
    assert Stops(mem, addr, maxlen, c0, n - 1) && Stops(mem, addr, maxlen, c0, n2 - 1);
  }

  /** The units below m are unreadable and unit m is readable. */
  ghost predicate FirstAt(mem: Memory, addr: Word64, m: nat) {
    UnitAt(mem, addr, m).Some? && forall i: nat :: i < m ==> UnitAt(mem, addr, i).None?
  }

  /** Before the first readable unit a pass sees its start value, from there on the memory alone. */
  lemma SeenAround(mem: Memory, addr: Word64, c: Unit, d: Unit, m: nat, i: nat)
    requires FirstAt(mem, addr, m)
    ensures if i < m then Seen(mem, addr, c, i) == c else Seen(mem, addr, c, i) == Seen(mem, addr, d, i)
  {
    if i < m {
      SeenKeeps(mem, addr, c, i);
    } else {
      SeenForgets(mem, addr, c, d, m, i);
    }
  }

  /** Each unreadable unit below the first readable one contributes the form of the start value. */
  lemma {:induction false} BytesBefore(mem: Memory, addr: Word64, c: Unit, m: nat, k: nat)
    requires FirstAt(mem, addr, m) && k <= m
    ensures |Scanned(mem, addr, c, k)| == k * Utf8Size(c)
    decreases k
  {
    if k > 0 {
      BytesBefore(mem, addr, c, m, k - 1);
      EncodeNext(mem, addr, c, k - 1);
      SeenAround(mem, addr, c, c, m, k - 1);
      OneMore(k - 1, Utf8Size(c));
    }
  }

  lemma OneMore(k: int, d: int)
    ensures (k + 1) * d == k * d + d
  {}

  /** Two passes from different start values differ in bytes by what the m unreadable units contribute. */
  lemma {:induction false} BytesAround(mem: Memory, addr: Word64, c: Unit, d: Unit, m: nat, k: nat)
    requires FirstAt(mem, addr, m) && m <= k
    ensures |Scanned(mem, addr, c, k)| - |Scanned(mem, addr, d, k)| == m * Utf8Size(c) - m * Utf8Size(d)
    decreases k
  {
    if k == m {
      BytesBefore(mem, addr, c, m, m);
      BytesBefore(mem, addr, d, m, m);
    } else {
      BytesAround(mem, addr, c, d, m, k - 1);
      EncodeNext(mem, addr, c, k - 1);
      EncodeNext(mem, addr, d, k - 1);
      SeenAround(mem, addr, c, d, m, k - 1);
    }
  }

  /**
   A start value that is not 0 does not change where the scan ends, if the first one got past the unreadable units.
   */
  lemma SameStops(mem: Memory, addr: Word64, maxlen: Word64, c0: Unit, c1: Unit, m: nat, n: nat)
    requires FirstAt(mem, addr, m) && m < n && ScanLength(mem, addr, maxlen, c0, n) && (c1 != 0 || m == 0)
    ensures ScanLength(mem, addr, maxlen, c1, n)
  {
    forall i: nat | i < n
      ensures Stops(mem, addr, maxlen, c1, i) <==> Stops(mem, addr, maxlen, c0, i)
    {
      SeenAround(mem, addr, c0, c1, m, i);
      SeenAround(mem, addr, c1, c0, m, i);
      assert i < m ==> !Stops(mem, addr, maxlen, c0, i);
    }
  }

  /** Pass two ends after SecondLength units, and nowhere else. */
  lemma SecondScan(mem: Memory, addr: Word64, maxlen: Word64, c0: Unit, n: nat, n2: nat)
    requires ScanLength(mem, addr, maxlen, c0, n)
    ensures ScanLength(mem, addr, maxlen, Seen(mem, addr, c0, n - 1), n2) <==> n2 == SecondLength(mem, addr, c0, n)
  {
    var c1, len := Seen(mem, addr, c0, n - 1), SecondLength(mem, addr, c0, n);
    if k: nat :| k < n && UnitAt(mem, addr, k).Some? {
      var m := FirstReadable(mem, addr, k);
      if c1 != 0 || m == 0 {
        SameStops(mem, addr, maxlen, c0, c1, m, n);
      }
    } else {
      SeenKeeps(mem, addr, c0, n - 1);
      assert c1 == 0 ==> Stops(mem, addr, maxlen, c0, 0) by {
        SeenKeeps(mem, addr, c0, 0);
      }
    }
    assert ScanLength(mem, addr, maxlen, c1, len);
    if ScanLength(mem, addr, maxlen, c1, n2) {
      OneScanLength(mem, addr, maxlen, c1, len, n2);
    }
  }

  lemma {:induction false} SameFactor(m: nat, x: int, y: int)
    requires m > 0
    ensures m * x <= m * y <==> x <= y
  {
    if m > 1 {
      SameFactor(m - 1, x, y);
      OneMore(m - 1, x);
      OneMore(m - 1, y);
    }
  }

  /** Pass two stays inside the buffer that pass one measured exactly when what is left in the variable does no harm. */
  lemma SecondPassFitsExactly(mem: Memory, addr: Word64, maxlen: Word64, c0: Unit, n: nat)
    requires ScanLength(mem, addr, maxlen, c0, n)
    ensures |Rewritten(mem, addr, c0, n)| <= |Scanned(mem, addr, c0, n)| <==> HarmlessStart(mem, addr, c0, n)
  {
    var c1 := Seen(mem, addr, c0, n - 1);
    if k: nat :| k < n && UnitAt(mem, addr, k).Some? {
      var m := FirstReadable(mem, addr, k);
      if c1 == 0 && m > 0 {
        EncodeNext(mem, addr, c1, 0);
        EncodeBound(SeenUnits(mem, addr, c0, n));
      } else {
        BytesAround(mem, addr, c1, c0, m, n);
        if m > 0 {
          SameFactor(m, Utf8Size(c1), Utf8Size(c0));
        }
      }
    } else {
      SeenKeeps(mem, addr, c0, n - 1);
      EncodePrefix(mem, addr, c0, SecondLength(mem, addr, c0, n), n);
    }
  }

  /**
   The condition fails for a string whose first unit is unreadable: the loop variable starts as 'a', which counts as one
   byte, and pass two starts with the second unit, which is written as three. Four bytes are counted, six are needed.
   */
  lemma SecondPassTooLongExample(mem: Memory)
    requires mem == map[0x1002 := 0x00, 0x1003 := 0x4e]
    ensures ScanLength(mem, 0x1000, 2, 0x61, 2) && !HarmlessStart(mem, 0x1000, 0x61, 2)
    ensures |Scanned(mem, 0x1000, 0x61, 2)| == 4 && |Rewritten(mem, 0x1000, 0x61, 2)| == 6
  {
    assert UnitAt(mem, 0x1000, 0).None? && UnitAt(mem, 0x1000, 1) == Some(0x4e00);
    EncodeNext(mem, 0x1000, 0x61, 0);
    EncodeNext(mem, 0x1000, 0x61, 1);
    EncodeNext(mem, 0x1000, 0x4e00, 0);
    EncodeNext(mem, 0x1000, 0x4e00, 1);
  }

  // ----- when the passes agree -----

  /** Every unit of a scan below the limit is unreadable. */
  ghost predicate NothingReadable(mem: Memory, addr: Word64, maxlen: Word64) {
    maxlen != 0 && forall i: nat :: i < maxlen ==> UnitAt(mem, addr, i).None?
  }

  /** A scan that starts with a non-zero value of the loop variable comes to an end. */
  ghost predicate ScanEnds(mem: Memory, addr: Word64, maxlen: Word64) {
    maxlen != 0 || exists i: nat :: UnitAt(mem, addr, i) == Some(0)
  }

  /**
   The loop variable is not initialised, and the second pass starts with what the first one left in it.
   The passes agree whatever its first value is exactly when the first unit is readable, or no unit is.
   */
  lemma PassesAgreeExactly(mem: Memory, addr: Word64, maxlen: Word64)
    requires ScanEnds(mem, addr, maxlen)
    ensures (forall c0: Unit, n: nat :: ScanLength(mem, addr, maxlen, c0, n) ==>
                                          PassesAgree(mem, addr, maxlen, c0, n)) <==>
            (UnitAt(mem, addr, 0).Some? || NothingReadable(mem, addr, maxlen))
  {
    if UnitAt(mem, addr, 0).Some? || NothingReadable(mem, addr, maxlen) {
      forall c0: Unit, n: nat | ScanLength(mem, addr, maxlen, c0, n)
        ensures PassesAgree(mem, addr, maxlen, c0, n)
      {
        SameScan(mem, addr, maxlen, c0, n);
      }
    } else {
      var c0, n := Disagreement(mem, addr, maxlen);
    }
  }

  lemma SameScan(mem: Memory, addr: Word64, maxlen: Word64, c0: Unit, n: nat)
    requires UnitAt(mem, addr, 0).Some? || NothingReadable(mem, addr, maxlen)
    requires ScanLength(mem, addr, maxlen, c0, n)
    ensures PassesAgree(mem, addr, maxlen, c0, n)
  {
    var c1 := Seen(mem, addr, c0, n - 1);
    forall i: nat | i < n
      ensures Seen(mem, addr, c1, i) == Seen(mem, addr, c0, i)
    {
      if UnitAt(mem, addr, 0).Some? {
        SeenForgets(mem, addr, c0, c1, 0, i);
      } else {
        NothingSeen(mem, addr, maxlen, c0, n);
      }
    }
    assert forall i: nat :: i < n ==> (Stops(mem, addr, maxlen, c1, i) <==> Stops(mem, addr, maxlen, c0, i));
    assert SeenUnits(mem, addr, c1, n) == SeenUnits(mem, addr, c0, n);
  }

  lemma NothingSeen(mem: Memory, addr: Word64, maxlen: Word64, c0: Unit, n: nat)
    requires NothingReadable(mem, addr, maxlen) && ScanLength(mem, addr, maxlen, c0, n)
    ensures forall i: nat :: i < n ==> Seen(mem, addr, c0, i) == c0
  {
    assert maxlen < n ==> Stops(mem, addr, maxlen, c0, maxlen - 1);
    forall i: nat | i < n
      ensures Seen(mem, addr, c0, i) == c0
    {
      SeenKeeps(mem, addr, c0, i);
    }
  }

  /** A first value for which the second pass reads a different first unit. */
  lemma Disagreement(mem: Memory, addr: Word64, maxlen: Word64) returns (c0: Unit, n: nat)
    requires ScanEnds(mem, addr, maxlen)
    requires UnitAt(mem, addr, 0).None? && !NothingReadable(mem, addr, maxlen)
    ensures ScanLength(mem, addr, maxlen, c0, n) && !PassesAgree(mem, addr, maxlen, c0, n)
  {
    var k: nat :| UnitAt(mem, addr, k).Some? && (maxlen == 0 || k < maxlen);
    var m := FirstReadable(mem, addr, k);
    forall i: nat | m <= i
      ensures Seen(mem, addr, 2, i) == Seen(mem, addr, 1, i)
    {
      SeenForgets(mem, addr, 1, 2, m, i);
    }
    forall i: nat | i < m
      ensures Seen(mem, addr, 1, i) == 1 && Seen(mem, addr, 2, i) == 2
    {
      SeenKeeps(mem, addr, 1, i);
      SeenKeeps(mem, addr, 2, i);
    }
    var stop: nat;
    if maxlen != 0 {
      stop := maxlen - 1;
    } else {
      stop :| UnitAt(mem, addr, stop) == Some(0);
    }
    n := FirstStop(mem, addr, maxlen, 1, stop);
    assert m < n by {
      assert forall i: nat :: i < m ==> !Stops(mem, addr, maxlen, 1, i);
    }
    assert forall i: nat :: Stops(mem, addr, maxlen, 2, i) <==> Stops(mem, addr, maxlen, 1, i);
    c0 := if Seen(mem, addr, 1, n - 1) == 1 then 2 else 1;
    var c1 := Seen(mem, addr, c0, n - 1);
    assert Seen(mem, addr, c1, 0) == c1 && Seen(mem, addr, c0, 0) == c0 && c1 != c0;
    assert SeenUnits(mem, addr, c1, n)[0] != SeenUnits(mem, addr, c0, n)[0];
  }

  // ----- a string in guest memory -----

  /** The units of a string without its terminator, in guest memory two bytes apart, and the terminator. */
  ghost predicate StringAt(mem: Memory, addr: Word64, us: seq<Unit>) {
    && 0 !in us && WordAt(mem, addr + 2 * |us|, W16, 0)
    && forall i: nat :: i < |us| ==> WordAt(mem, addr + 2 * i, W16, us[i])
  }

  lemma UnitRead(mem: Memory, addr: Word64, us: seq<Unit>, c0: Unit, i: nat)
    requires StringAt(mem, addr, us) && i <= |us|
    ensures Seen(mem, addr, c0, i) == if i < |us| then us[i] else 0
    ensures UnitAt(mem, addr, i).Some?
  {
    ReadsBack(mem, addr + 2 * i, W16, if i < |us| then us[i] else 0);
  }

  lemma UnitsRead(mem: Memory, addr: Word64, us: seq<Unit>, c0: Unit, n: nat)
    requires StringAt(mem, addr, us) && n <= |us| + 1
    ensures SeenUnits(mem, addr, c0, n) == (us + [0])[..n]
  {
    forall i: nat | i < n
      ensures SeenUnits(mem, addr, c0, n)[i] == (us + [0])[i]
    {
      UnitRead(mem, addr, us, c0, i);
    }
  }

  /**
   A whole string is scanned up to its terminator, or cut after maxlen units; the copy is the encoding of what was
   scanned, whatever the loop variable starts with. The terminator counts as a unit, and is copied too.
   */
  lemma StringCopied(mem: Memory, addr: Word64, maxlen: Word64, us: seq<Unit>, c0: Unit)
    requires StringAt(mem, addr, us)
    ensures var n: nat := if maxlen == 0 || |us| < maxlen then |us| + 1 else maxlen;
            && ScanLength(mem, addr, maxlen, c0, n) && HarmlessStart(mem, addr, c0, n)
            && PassesAgree(mem, addr, maxlen, c0, n)
            && Scanned(mem, addr, c0, n) == Encode((us + [0])[..n])
  {
    var n: nat := if maxlen == 0 || |us| < maxlen then |us| + 1 else maxlen;
    forall i: nat | i < n
      ensures Stops(mem, addr, maxlen, c0, i) <==> i == n - 1
    {
      UnitRead(mem, addr, us, c0, i);
      assert i < |us| ==> us[i] in us;
    }
    UnitRead(mem, addr, us, c0, 0);
    UnitsRead(mem, addr, us, c0, n);
    SameScan(mem, addr, maxlen, c0, n);
  }
}
