/** mapping.c: one set of Mapping objects, indexed by (base, size) and by file name. */
module MappingStore {
  import opened Words
  import opened SearchTree

  datatype Status = Unknown | Parsed

  /** The parse record that module.c hangs on a mapping. */
  class Module {
    const mapping: Mapping
    var status: Status

    constructor (m: Mapping)
      ensures mapping == m && status == Unknown
    {
      mapping := m;
      status := Unknown;
    }
  }

  class Mapping {
    const filename: CString
    var base: Word64
    var size: Word64
    var code: Module?

    constructor (filename: CString, base: Word64, size: Word64)
      ensures this.filename == filename && this.base == base && this.size == size && code == null
    {
      this.filename, this.base, this.size, code := filename, base, size, null;
    }
  }

  function KeyOf(m: Mapping): Key
    reads m`base, m`size
  {
    Key(m.base, m.size)
  }

  // ----- the simple table the two indexes stand for -----

  type Table = map<CString, Key>

  /** The interval mapping_create leaves for a file that is already mapped. */
  function Hull(k: Key, base: Word64, size: Word64): Key {
    var low := if k.base > base then base else k.base;
    var end := if k.End() < Add64(base, size) then Add64(base, size) else k.End();
    Key(low, Sub64(end, low))
  }

  function Created(a: Table, f: CString, base: Word64, size: Word64): Table {
    a[f := if f in a then Hull(a[f], base, size) else Key(base, size)]
  }

  /**
   In 64-bit arithmetic: the base is the lower of the two bases, and the end the greater of the two ends, either of
   which may have wrapped around. A new file gets the interval as given, and other files keep theirs.
   */
  lemma CreatedByEnds(a: Table, f: CString, base: Word64, size: Word64)
    ensures var t := Created(a, f, base, size);
            f in t && t == a[f := t[f]] && (f !in a ==> t[f] == Key(base, size))
    ensures f in a ==>
              var k, k', end, end' := a[f], Created(a, f, base, size)[f], (a[f].base + a[f].size) % TWO_TO_64,
                                      (base + size) % TWO_TO_64;
              && k'.base == (if base < k.base then base else k.base)
              && (k'.base + k'.size) % TWO_TO_64 == (if end < end' then end' else end)
  {
    if f in a {
      var low := if base < a[f].base then base else a[f].base;
      SubAdds(low, if a[f].End() < Add64(base, size) then Add64(base, size) else a[f].End());
    }
  }

  lemma SubAdds(low: Word64, end: Word64)
    ensures Add64(low, Sub64(end, low)) == end
  {}

  /** No other file occupies exactly the interval that f has. */
  predicate Unshared(a: Table, f: CString)
    requires f in a
  {
    forall g | g in a && g != f :: a[g] != a[f]
  }

  predicate Covers(a: Table, addr: Word64, f: CString) {
    f in a && a[f].Contains(addr)
  }

  ghost predicate Unmapped(a: Table, addr: Word64) {
    forall f :: !Covers(a, addr, f)
  }

  /** In key order the ends never decrease. */
  ghost predicate Ascending(a: Table) {
    forall f, g :: f in a && g in a && Compare(a[f], a[g]) < 0 ==> a[f].End() <= a[g].End()
  }

  /** What mapping_find may answer for addr, on some shape of the tree. */
  ghost predicate Answer(a: Table, addr: Word64, found: Option<CString>) {
    match found
    case Some(f) => Covers(a, addr, f)
    case None => Ascending(a) ==> Unmapped(a, addr)
  }

  /** Ordered by base and then by size, no interval ends before an earlier one. */
  ghost predicate EndsInOrder(a: Table) {
    forall f, g ::
      f in a && g in a && (a[f].base < a[g].base || (a[f].base == a[g].base && a[f].size < a[g].size)) ==>
        (a[f].base + a[f].size) % TWO_TO_64 <= (a[g].base + a[g].size) % TWO_TO_64
  }

  lemma EndsInOrderExactly(a: Table)
    ensures EndsInOrder(a) <==> Ascending(a)
  {
    forall f, g | f in a && g in a
      ensures Compare(a[f], a[g]) < 0 <==> a[f].base < a[g].base || (a[f].base == a[g].base && a[f].size < a[g].size)
    {
      CompareExactly(a[f], a[g]);
    }
  }

  /**
   An answer is a file whose interval contains the address: its base is inside, its end is not. Where the ends ascend
   there is an answer exactly if there is such a file.
   */
  lemma AnswerByAddress(a: Table, addr: Word64, found: Option<CString>)
    requires Answer(a, addr, found)
    ensures found.Some? ==>
              found.value in a && var k := a[found.value]; k.base <= addr < (k.base + k.size) % TWO_TO_64
    ensures found.None? && EndsInOrder(a) ==>
              forall f :: f in a ==> !(a[f].base <= addr < (a[f].base + a[f].size) % TWO_TO_64)
  {
    EndsInOrderExactly(a);
    forall f | f in a
      ensures Covers(a, addr, f) <==> a[f].base <= addr < (a[f].base + a[f].size) % TWO_TO_64
    {
      ProbeExactly(a[f], addr);
    }
  }

  /** Non-empty, non-wrapping intervals, pairwise disjoint. */
  ghost predicate Separated(a: Table) {
    && (forall f :: f in a ==> 0 < a[f].size && a[f].base + a[f].size < TWO_TO_64)
    && (forall f, g :: f in a && g in a && f != g ==> a[f].End() <= a[g].base || a[g].End() <= a[f].base)
  }

  /** Disjoint intervals have ascending ends and at most one owner per address. */
  lemma SeparatedIsUnambiguous(a: Table)
    requires Separated(a)
    ensures Ascending(a)
    ensures forall f, g, addr :: Covers(a, addr, f) && Covers(a, addr, g) ==> f == g
  {
    hide Compare;
    forall f, g | f in a && g in a && Compare(a[f], a[g]) < 0
      ensures a[f].End() <= a[g].End()
    {
      CompareExactly(a[f], a[g]);
      EndIsSum(a[f]);
      EndIsSum(a[g]);
    }
    forall f, g, addr | Covers(a, addr, f) && Covers(a, addr, g)
      ensures f == g
    {
      EndIsSum(a[f]);
      EndIsSum(a[g]);
    }
  }

  lemma EndIsSum(k: Key)
    requires k.base + k.size < TWO_TO_64
    ensures k.End() == k.base + k.size
  {}

  /** The file mapped at addr, where there is one. */
  ghost function Owner(a: Table, addr: Word64): Option<CString> {
    if exists f :: Covers(a, addr, f) then
      var f :| Covers(a, addr, f);
      Some(f)
    else None
  }

  lemma OwnerIsUnique(a: Table, addr: Word64, f: CString)
    requires Separated(a) && Covers(a, addr, f)
    ensures Owner(a, addr) == Some(f)
  {
    SeparatedIsUnambiguous(a);
  }

  /** On separated intervals mapping_find has exactly one possible answer: the owner of the address. */
  lemma AnswerIsOwner(a: Table, addr: Word64, found: Option<CString>)
    requires Separated(a)
    ensures Answer(a, addr, found) <==> found == Owner(a, addr)
  {
    SeparatedIsUnambiguous(a);
    if f :| Covers(a, addr, f) {
      OwnerIsUnique(a, addr, f);
    }
  }

  /** On separated intervals the owner of an address is the file with base <= addr < base + size. */
  lemma OwnerByAddress(a: Table, addr: Word64)
    requires Separated(a)
    ensures forall f :: Owner(a, addr) == Some(f) <==> f in a && a[f].base <= addr < a[f].base + a[f].size
  {
    forall f
      ensures Owner(a, addr) == Some(f) <==> f in a && a[f].base <= addr < a[f].base + a[f].size
    {
      assert Covers(a, addr, f) <==> f in a && a[f].base <= addr < a[f].base + a[f].size;
      if Covers(a, addr, f) {
        OwnerIsUnique(a, addr, f);
      }
    }
  }

  class Store {
    var mappings: Tree<Mapping>
    var byName: map<CString, Mapping>
    /** The objects handed to mapping_destroy. */
    ghost var destroyed: set<Mapping>

    function View(): map<Mapping, Key>
      reads this`byName, byName.Values`base, byName.Values`size
    {
      map m | m in byName.Values :: KeyOf(m)
    }

    ghost function Abs(): Table
      reads this`byName, byName.Values`base, byName.Values`size
    {
      map f | f in byName :: KeyOf(byName[f])
    }

    /** The file name of a result of mapping_find. */
    function NameOf(m: Mapping?): Option<CString> {
      if m == null then None else Some(m.filename)
    }

    ghost predicate Named()
      reads this`byName
    {
      && (forall f :: f in byName ==> byName[f].filename == f)
      && (forall m :: m in byName.Values ==> m.filename in byName && byName[m.filename] == m)
    }

    /** The two indexes agree: the same live objects, each filed under its current key and its own name. */
    ghost predicate Valid()
      reads this, byName.Values`base, byName.Values`size
    {
      && Named()
      && Indexes(mappings, byName.Values, View())
      && byName.Values !! destroyed
    }

    constructor ()
      ensures Valid() && Abs() == map[]
    {
      mappings, byName, destroyed := Leaf, map[], {};
    }

    /** mapping_create */
    method Create(filename: CString, base: Word64, size: Word64, stealPlan: seq<Turn>, insertPlan: seq<Turn>)
      requires Valid()
      modifies this, byName.Values
      ensures Named() && Abs() == Created(old(Abs()), filename, base, size)
      ensures Valid() <==> Unshared(Abs(), filename)
      ensures forall f :: f in old(byName) ==> f in byName && byName[f] == old(byName[f])
      ensures fresh(byName.Values - old(byName.Values))
      ensures filename !in old(byName) ==> fresh(byName[filename]) && byName[filename].code == null
      ensures forall m :: m in old(byName.Values) ==> m.code == old(m.code)
    {
      hide Indexes, Unshared;
      if filename in byName {
        Extend(byName[filename], base, size, stealPlan, insertPlan);
      } else {
        var m := new Mapping(filename, base, size);
        Register(m, insertPlan);
      }
    }

    /** The branch of mapping_create for a new file. */
    method Register(m: Mapping, plan: seq<Turn>)
      requires Valid() && m.filename !in byName && m !in destroyed
      modifies this
      ensures Named() && byName == old(byName)[m.filename := m]
      ensures byName.Values == old(byName.Values) + {m}
      ensures Abs() == old(Abs())[m.filename := KeyOf(m)]
      ensures Valid() <==> Unshared(Abs(), m.filename)
    {
      ghost var view, live := View(), byName.Values;
      Name(m);
      assert byName.Values - {m} == live && View() - {m} == view;
      File(m, plan);
    }

    /** The insertion into the name index. */
    method Name(m: Mapping)
      requires Named() && m.filename !in byName
      modifies this`byName
      ensures Named() && byName == old(byName)[m.filename := m]
      ensures byName.Values == old(byName.Values) + {m} && m !in old(byName.Values)
      ensures View() == old(View())[m := KeyOf(m)]
      ensures Abs() == old(Abs())[m.filename := KeyOf(m)]
    {
      byName := byName[m.filename := m];
      assert byName[m.filename] == m;
      assert forall x :: x in old(byName.Values) ==> x.filename != m.filename && byName[x.filename] == x;
    }

    /** The removal from the name index. */
    method Unname(m: Mapping)
      requires Named() && m in byName.Values
      modifies this`byName
      ensures Named() && byName.Values == old(byName.Values) - {m}
      ensures View() == old(View()) - {m}
      ensures Abs() == old(Abs()) - {m.filename}
    {
      byName := byName - {m.filename};
      assert forall x :: x in old(byName.Values) && x != m ==> x.filename in byName && byName[x.filename] == x;
    }

    /** g_tree_steal: takes m out of the address tree only. */
    method Steal(m: Mapping, plan: seq<Turn>)
      requires Valid() && m in byName.Values
      modifies this`mappings
      ensures Abs() == old(Abs()) && View() == old(View())
      ensures Indexes(mappings, byName.Values - {m}, View() - {m})
    {
      hide Indexes, Stolen;
      StealFromIndex(mappings, byName.Values, View(), m, plan);
      mappings := Stolen(mappings, m, View(), plan);
    }

    /** The in-place change of the key fields between steal and insert. */
    method Widen(m: Mapping, base: Word64, size: Word64)
      requires Named() && m in byName.Values
      modifies m`base, m`size
      ensures KeyOf(m) == Hull(old(KeyOf(m)), base, size)
      ensures View() == old(View())[m := KeyOf(m)]
      ensures Abs() == old(Abs())[m.filename := KeyOf(m)]
    {
      var oldBase, oldSize := m.base, m.size;
      if oldBase > base {
        m.base := base;
      }
      var oldEnd := Add64(oldBase, oldSize);
      if oldEnd < Add64(base, size) {
        oldEnd := Add64(base, size);
      }
      m.size := Sub64(oldEnd, m.base);
    }

    /** The branch of mapping_create for a file that is already mapped. */
    method Extend(m: Mapping, base: Word64, size: Word64, stealPlan: seq<Turn>, insertPlan: seq<Turn>)
      requires Valid() && m in byName.Values
      modifies this`mappings, this`destroyed, m`base, m`size
      ensures Named() && Abs() == old(Abs())[m.filename := Hull(old(KeyOf(m)), base, size)]
      ensures Valid() <==> Unshared(Abs(), m.filename)
    {
      hide Indexes, Hull, Unshared;
      Steal(m, stealPlan);
      ghost var view := View();
      Widen(m, base, size);
      assert View() - {m} == view - {m};
      File(m, insertPlan);
    }

    /** The g_tree_insert that ends both branches, into the tree of all the other objects. */
    method File(m: Mapping, plan: seq<Turn>)
      requires Named() && m in byName.Values
      requires Indexes(mappings, byName.Values - {m}, View() - {m})
      requires byName.Values !! destroyed
      modifies this`mappings, this`destroyed
      ensures Abs() == old(Abs())
      ensures Valid() <==> Unshared(Abs(), m.filename)
    {
      hide Indexes, Filed, SameKey;
      UnsharedIsUniqueKey(m);
      FileExact(mappings, byName.Values, View(), m, plan);
      destroyed := destroyed + SameKey(byName.Values, View(), m);
      mappings := Filed(mappings, m, View(), plan);
    }

    lemma UnsharedIsUniqueKey(m: Mapping)
      requires Named() && m in byName.Values
      ensures Unshared(Abs(), m.filename) <==> SameKey(byName.Values, View(), m) == {}
    {
      if x :| x in SameKey(byName.Values, View(), m) {
        assert x.filename in byName && Abs()[x.filename] == Abs()[m.filename];
      } else {
        forall g | g in byName && g != m.filename
          ensures Abs()[g] != Abs()[m.filename]
        {
          assert byName[g] !in SameKey(byName.Values, View(), m);
        }
      }
    }

    /** mapping_find */
    method Find(addr: Word64) returns (m: Mapping?)
      requires Valid()
      ensures m != null ==> m.filename in byName && byName[m.filename] == m
      ensures Answer(Abs(), addr, NameOf(m))
      ensures m != null ==> m.base <= addr < (m.base + m.size) % TWO_TO_64
    {
      hide Indexes, Ascending, Unmapped, Search;
      SearchIndex(mappings, byName.Values, View(), addr);
      match Search(mappings, addr, View())
      case Some(found) =>
        m := found;
        ProbeExactly(KeyOf(m), addr);
      case None =>
        m := null;
        if Ascending(Abs()) {
          NothingMissed(addr);
        }
    }

    /** What SearchIndex says about an unsuccessful search, in terms of the table. */
    lemma NothingMissed(addr: Word64)
      requires Named() && Ascending(Abs())
      requires (forall x, y :: x in byName.Values && y in byName.Values && Compare(At(View(), x), At(View(), y)) < 0 ==>
                                 At(View(), x).End() <= At(View(), y).End()) ==>
                 !exists x :: x in byName.Values && At(View(), x).Contains(addr)
      ensures Unmapped(Abs(), addr)
    {
      forall x, y | x in byName.Values && y in byName.Values && Compare(At(View(), x), At(View(), y)) < 0
        ensures At(View(), x).End() <= At(View(), y).End()
      {
        assert Abs()[x.filename] == At(View(), x) && Abs()[y.filename] == At(View(), y);
      }
      forall f
        ensures !Covers(Abs(), addr, f)
      {
        if f in byName {
          assert byName[f] in byName.Values && At(View(), byName[f]) == Abs()[f];
        }
      }
    }

    /** mapping_delete */
    method Delete(addr: Word64, plan: seq<Turn>) returns (m: Mapping?)
      requires Valid()
      modifies this
      ensures Valid() && byName.Values <= old(byName.Values)
      ensures Answer(old(Abs()), addr, NameOf(m))
      ensures m != null ==> m.base <= addr < (m.base + m.size) % TWO_TO_64
      ensures Abs() == if m == null then old(Abs()) else old(Abs()) - {m.filename}
    {
      hide Answer, Indexes, Unmapped, Ascending;
      m := Find(addr);
      if m != null {
        Drop(m, plan);
      }
    }

    method Drop(m: Mapping, plan: seq<Turn>)
      requires Valid() && m in byName.Values
      modifies this
      ensures Valid() && byName.Values <= old(byName.Values)
      ensures Abs() == old(Abs()) - {m.filename}
    {
      hide Indexes;
      Steal(m, plan);
      destroyed := destroyed + {m};
      Unname(m);
    }
  }
}
