/** Bytes in memory, as the readers see them in an image. */
module BytesInImage {
  import opened Words
  import opened GuestMemory
  import opened ImageReading
  import opened WalkProperties

  lemma FieldReads(mem: Memory, base: Word64, off: int, w: Width, v: int)
    requires WordAt(mem, base + off, w, v)
    ensures ImageAt(mem, base)(off, w) == Some(v)
  {
    ReadsBack(mem, base + off, w, v);
  }

  lemma ByteReads(mem: Memory, base: Word64, start: int, i: int)
    ensures ImageAt(mem, base)(start + i, W8) == Read1(mem, base + start, i)
  {
    var a := base + (start + i);
    assert Add64(a, 0) == Add64(base + start, i);
    assert Read1(mem, a, 0) == Read1(mem, base + start, i);
    assert Read(mem, a, W8) == Read1(mem, a, 0);
    assert ImageAt(mem, base)(start + i, W8) == Read(mem, base + (start + i), W8);
  }

  lemma FieldsRead(mem: Memory, base: Word64, fields: seq<Field>, vs: seq<Word64>)
    requires |vs| == |fields|
    requires forall i :: 0 <= i < |fields| ==> WordAt(mem, base + fields[i].off, fields[i].w, vs[i])
    ensures Loads(ImageAt(mem, base), fields) == Some(vs)
  {
    hide WordAt, Loads, ImageAt;
    forall i | 0 <= i < |fields|
      ensures ImageAt(mem, base)(fields[i].off, fields[i].w) == Some(vs[i])
    {
      FieldReads(mem, base, fields[i].off, fields[i].w, vs[i]);
    }
    LoadsExact(ImageAt(mem, base), fields, vs);
  }

  /** A name in the string table, with its NUL. */
  ghost predicate NameLaid(mem: Memory, a: int, name: seq<Byte>) {
    0 !in name && BytesFrom(mem, a, 0, name + [0])
  }

  /**
   The name of a tracepoint: the path bytes, 58, and at most 127 bytes of the symbol's name; nothing without a path.
   */
  function Labelled(file: CString, name: seq<Byte>): seq<Byte> {
    if file.Null? then [] else file.bytes + [58] + if |name| <= 127 then name else name[..127]
  }

  lemma LabelIsFullName(file: CString, name: seq<Byte>)
    ensures FullName(file, Cut(name)) == Labelled(file, name)
  {}

  /** A name as it is recorded: at most 127 bytes. */
  function Cut(name: seq<Byte>): seq<Byte> {
    if |name| > NAME_LIMIT then name[..NAME_LIMIT] else name
  }

  lemma NameSpelled(img: Image, start: int, name: seq<Byte>)
    requires 0 !in name && forall i :: 0 <= i <= |name| ==> Holds(img, start + i, (name + [0])[i])
    ensures ReadName(img, start, []) == Some(Cut(name))
  {
    var bs := name + [0];
    assert forall i :: 0 <= i < |name| ==> Holds(img, start + i, bs[i]) && bs[i] == name[i] && name[i] in name;
    assert Holds(img, start + |name|, bs[|name|]) && bs[|name|] == 0;
    assert Spells(img, start, [], Cut(name));
    NameIsExact(img, start, [], Cut(name));
  }

  lemma NameHolds(mem: Memory, base: Word64, start: int, name: seq<Byte>, i: int)
    requires NameLaid(mem, base + start, name) && 0 <= i <= |name|
    ensures Holds(ImageAt(mem, base), start + i, (name + [0])[i])
  {
    assert Read1(mem, base + start, 0 + i) == Some((name + [0])[i]);
    ByteReads(mem, base, start, i);
  }

  lemma NameReads(mem: Memory, base: Word64, start: int, name: seq<Byte>)
    requires NameLaid(mem, base + start, name)
    ensures ReadName(ImageAt(mem, base), start, []) == Some(Cut(name))
  {
    forall i | 0 <= i <= |name|
      ensures Holds(ImageAt(mem, base), start + i, (name + [0])[i])
    {
      NameHolds(mem, base, start, name, i);
    }
    NameSpelled(ImageAt(mem, base), start, name);
  }

  /** Scalars inside a readable stretch are readable. */
  ghost predicate Stretch(mem: Memory, base: Word64, from: int, to: int) {
    forall i :: from <= i < to ==> Read1(mem, base, i).Some?
  }

  lemma ReadsInStretch(mem: Memory, base: Word64, from: int, to: int, off: int, w: Width)
    requires Stretch(mem, base, from, to) && from <= off && off + w.Bytes() <= to
    ensures ImageAt(mem, base)(off, w).Some?
  {
    var a := base + off;
    forall i | 0 <= i < w.Bytes()
      ensures Add64(a, i) in mem
    {
      assert Read1(mem, base, off + i).Some?;
    }
    ReadNeedsAllBytes(mem, a, w);
  }
}
