/** Byte strings put together from pieces, and where the pieces are in guest memory. */
module FileBytes {
  import opened Words
  import opened GuestMemory

  /** `part` stands in `bytes` at offset `at`. */
  ghost predicate Has(bytes: seq<Byte>, at: int, part: seq<Byte>) {
    0 <= at && at + |part| <= |bytes| && bytes[at..at + |part|] == part
  }

  lemma HasWithin(bytes: seq<Byte>, at: int, part: seq<Byte>, inner: int, piece: seq<Byte>)
    requires Has(bytes, at, part) && Has(part, inner, piece)
    ensures Has(bytes, at + inner, piece)
  {
    var a, b := bytes[at..at + |part|][inner..inner + |piece|], bytes[at + inner..at + inner + |piece|];
    forall k | 0 <= k < |piece|
      ensures a[k] == b[k]
    {
      assert bytes[at..at + |part|][inner + k] == bytes[at + (inner + k)];
    }
    assert a == b;
  }

  /** The bytes in guest memory from `base` on. */
  function Loaded(bytes: seq<Byte>, base: Word64): Memory
    requires base + |bytes| <= TWO_TO_64
  {
    map a | a in Span(base, |bytes|) :: bytes[a - base]
  }

  lemma HasInMemory(bytes: seq<Byte>, base: Word64, at: int, part: seq<Byte>)
    requires base + |bytes| <= TWO_TO_64 && Has(bytes, at, part)
    ensures BytesFrom(Loaded(bytes, base), base + at, 0, part)
  {
    forall k | 0 <= k < |part|
      ensures Read1(Loaded(bytes, base), base + at, 0 + k) == Some(part[k])
    {
      assert bytes[at..at + |part|][k] == bytes[at + k];
      assert Add64(base + at, k) == base + at + k == Add64(base, at + k);
      assert Add64(base, at + k) in Span(base, |bytes|);
    }
  }

  lemma HasWord(bytes: seq<Byte>, base: Word64, at: int, part: seq<Byte>, inner: int, w: Width, v: int)
    requires base + |bytes| <= TWO_TO_64 && Has(bytes, at, part) && Has(part, inner, LittleEndian(v, w))
             && 0 <= v < Limit(w)
    ensures WordAt(Loaded(bytes, base), base + (at + inner), w, v)
  {
    hide LittleEndian, Loaded;
    HasWithin(bytes, at, part, inner, LittleEndian(v, w));
    HasInMemory(bytes, base, at + inner, LittleEndian(v, w));
  }

  function Concat(parts: seq<seq<Byte>>): seq<Byte>
    decreases |parts|
  {
    if parts == [] then [] else parts[0] + Concat(parts[1..])
  }

  lemma {:induction false} ConcatHas(parts: seq<seq<Byte>>, i: nat)
    requires i < |parts|
    ensures Has(Concat(parts), |Concat(parts[..i])|, parts[i])
    decreases |parts|
  {
    var rest := Concat(parts[1..]);
    assert Concat(parts) == parts[0] + rest;
    if i == 0 {
      assert Has(Concat(parts), 0, parts[0]);
    } else {
      ConcatHas(parts[1..], i - 1);
      assert parts[..i][0] == parts[0] && parts[..i][1..] == parts[1..][..i - 1];
      assert Concat(parts)[|parts[0]|..] == rest;
      assert Has(Concat(parts), |parts[0]|, rest);
      HasWithin(Concat(parts), |parts[0]|, rest, |Concat(parts[1..][..i - 1])|, parts[i]);
    }
  }

  lemma Distribute(n: nat, size: nat)
    ensures (n + 1) * size == size + n * size
  {}

  lemma {:induction false} ConcatSize(parts: seq<seq<Byte>>, size: nat)
    requires forall p :: p in parts ==> |p| == size
    ensures |Concat(parts)| == |parts| * size
    decreases |parts|
  {
    if parts != [] {
      assert parts[0] in parts && forall p :: p in parts[1..] ==> p in parts;
      ConcatSize(parts[1..], size);
      Distribute(|parts| - 1, size);
    }
  }

  /** Pieces of one size stand one after the other. */
  lemma RowHas(parts: seq<seq<Byte>>, i: nat, size: nat)
    requires i < |parts| && forall p :: p in parts ==> |p| == size
    ensures Has(Concat(parts), i * size, parts[i])
  {
    ConcatSize(parts[..i], size);
    ConcatHas(parts, i);
  }

  function Zeros(n: nat): (bs: seq<Byte>)
    ensures |bs| == n
  {
    seq(n, _ => 0)
  }

  lemma TwoParts(a: seq<Byte>, b: seq<Byte>)
    ensures Has(a + b, 0, a) && Has(a + b, |a|, b)
  {
    assert (a + b)[0..|a|] == a && (a + b)[|a|..|a| + |b|] == b;
  }

  lemma FiveParts(a: seq<Byte>, b: seq<Byte>, c: seq<Byte>, d: seq<Byte>, e: seq<Byte>)
    ensures var f := a + b + c + d + e;
            && Has(f, 0, a) && Has(f, |a|, b) && Has(f, |a| + |b|, c) && Has(f, |a| + |b| + |c|, d)
            && Has(f, |a| + |b| + |c| + |d|, e)
  {
    hide Has;
    var ab, f := a + b, a + b + c + d + e;
    TwoParts(a, b);
    TwoParts(ab, c);
    TwoParts(ab + c, d);
    TwoParts(ab + c + d, e);
    HasWithin(f, 0, ab + c + d, |ab + c|, d);
    HasWithin(f, 0, ab + c + d, 0, ab + c);
    HasWithin(f, 0, ab + c, |ab|, c);
    HasWithin(f, 0, ab + c, 0, ab);
    HasWithin(f, 0, ab, |a|, b);
    HasWithin(f, 0, ab, 0, a);
  }
}
