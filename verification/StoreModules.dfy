/** The modules of the mappings in a store: made on first use, marked when parsed, freed with their mapping. */
module StoreModules {
  import opened Words
  import opened SearchTree
  import opened MappingStore

  /** The module status of a mapping, as the model has it. */
  ghost function StatusOf(m: Mapping): Option<Status>
    reads m`code, if m.code == null then {} else {m.code}
  {
    if m.code == null then None else Some(m.code.status)
  }

  ghost function Codes(store: Store): set<Module>
    reads store, store.byName.Values
  {
    set m | m in store.byName.Values && m.code != null :: m.code
  }

  /** The module of each mapping points back at it. */
  ghost predicate PointBack(store: Store)
    reads store, store.byName.Values, Codes(store)
  {
    forall f :: f in store.byName && store.byName[f].code != null ==> store.byName[f].code.mapping == store.byName[f]
  }

  /** These are the module statuses that the objects have. */
  ghost predicate StatusesAre(store: Store, t: map<CString, Option<Status>>)
    reads store, store.byName.Values, Codes(store)
  {
    forall f :: f in store.byName ==> f in t && StatusOf(store.byName[f]) == t[f]
  }

  /** The mapping's module, if any, points back at it and has the status that t says. */
  ghost predicate Keeps(f: CString, m: Mapping, t: map<CString, Option<Status>>)
    reads m`code, if m.code == null then {} else {m.code}
  {
    (m.code != null ==> m.code.mapping == m) && f in t && StatusOf(m) == t[f]
  }

  /** The files of the store are those of its table. */
  lemma NamedAre(store: Store, names: map<CString, Mapping>)
    requires names == store.byName
    ensures names.Keys == store.Abs().Keys
  {}

  /** mapping_create keeps the modules of all mappings, and a new mapping has none. */
  method CreateKeeping(store: Store, name: CString, base: Word64, size: Word64,
                       stealPlan: seq<Turn>, insertPlan: seq<Turn>,
                       ghost t: map<CString, Option<Status>>)
    requires store.Valid() && PointBack(store) && StatusesAre(store, t) && t.Keys == store.byName.Keys
    modifies store, store.byName.Values
    ensures store.Abs() == Created(old(store.Abs()), name, base, size)
    ensures store.Valid() <==> Unshared(store.Abs(), name)
    ensures PointBack(store) && StatusesAre(store, t[name := if name in t then t[name] else None])
    ensures fresh(store.byName.Values - old(store.byName.Values)) && Codes(store) <= old(Codes(store))
  {
    ghost var was := store.byName;
    CreateRaw(store, name, base, size, stealPlan, insertPlan, t);
    StatusesFollow(store, was, name, t);
  }

  method CreateRaw(store: Store, name: CString, base: Word64, size: Word64, stealPlan: seq<Turn>, insertPlan: seq<Turn>,
                   ghost t: map<CString, Option<Status>>)
    requires store.Valid() && PointBack(store) && StatusesAre(store, t)
    modifies store, store.byName.Values
    ensures store.Abs() == Created(old(store.Abs()), name, base, size)
    ensures store.Valid() <==> Unshared(store.Abs(), name)
    ensures fresh(store.byName.Values - old(store.byName.Values)) && Codes(store) <= old(Codes(store))
    ensures store.byName.Keys == old(store.byName.Keys) + {name}
    ensures forall f :: f in old(store.byName) ==> Keeps(f, store.byName[f], t)
    ensures name !in old(store.byName) ==> store.byName[name].code == null
  {
    hide Indexes, Unshared;
    ghost var was, codes := store.byName, Codes(store);
    NamedAre(store, was);
    store.Create(name, base, size, stealPlan, insertPlan);
    NamedAre(store, store.byName);
    forall f | f in was
      ensures Keeps(f, store.byName[f], t)
    {
      var m := was[f];
      assert m in was.Values;
      assert m.code == old(m.code) && (m.code != null ==> m.code in codes && m.code.status == old(m.code.status));
    }
    forall x | x in Codes(store)
      ensures x in codes
    {
      var m :| m in store.byName.Values && m.code == x;
      assert m.filename in store.byName && store.byName[m.filename] == m;
    }
  }

  lemma StatusesFollow(store: Store, was: map<CString, Mapping>, name: CString, t: map<CString, Option<Status>>)
    requires t.Keys == was.Keys && store.byName.Keys == was.Keys + {name}
    requires forall f :: f in was ==> Keeps(f, store.byName[f], t)
    requires name !in was ==> store.byName[name].code == null
    ensures PointBack(store) && StatusesAre(store, t[name := if name in t then t[name] else None])
  {
    var t' := t[name := if name in t then t[name] else None];
    forall f | f in store.byName
      ensures Keeps(f, store.byName[f], t')
    {
      if f in was {
        assert Keeps(f, store.byName[f], t);
      }
    }
    assert forall f :: f in store.byName ==> Keeps(f, store.byName[f], t');
  }

  /** mapping_delete frees the module of the mapping with it, and keeps the others. */
  method DeleteKeeping(store: Store, addr: Word64, plan: seq<Turn>, ghost t: map<CString, Option<Status>>)
    returns (answer: Option<CString>)
    requires store.Valid() && PointBack(store) && StatusesAre(store, t)
    modifies store
    ensures store.Valid() && Answer(old(store.Abs()), addr, answer)
    ensures store.Abs() == if answer == None then old(store.Abs()) else old(store.Abs()) - {answer.value}
    ensures PointBack(store) && StatusesAre(store, if answer == None then t else t - {answer.value})
    ensures store.byName.Values <= old(store.byName.Values)
  {
    hide Indexes;
    ghost var was := store.byName;
    NamedAre(store, was);
    var m := store.Delete(addr, plan);
    answer := store.NameOf(m);
    NamedAre(store, store.byName);
    forall f | f in store.byName
      ensures f in was && store.byName[f] == was[f]
    {
      assert store.byName[f] in store.byName.Values;
    }
  }

  /** module_init, where it is needed. */
  method EnsureModule(store: Store, m: Mapping, ghost t: map<CString, Option<Status>>)
    requires store.Valid() && PointBack(store) && StatusesAre(store, t) && m in store.byName.Values
    modifies m`code
    ensures store.Valid() && store.Abs() == old(store.Abs()) && PointBack(store)
    ensures m.code != null && m.code in Codes(store) && (old(m.code) != null ==> m.code == old(m.code))
    ensures fresh(Codes(store) - old(Codes(store))) && m.filename in t
    ensures var s := t[m.filename];
            StatusesAre(store, t[m.filename := Some(if s == None then Unknown else s.value)])
            && m.code.status == (if s == None then Unknown else s.value)
  {
    assert store.byName[m.filename] == m;
    if m.code == null {
      NewModule(store, m, t);
    } else {
      assert t[m.filename := t[m.filename]] == t;
    }
  }

  /** module_init */
  method NewModule(store: Store, m: Mapping, ghost t: map<CString, Option<Status>>)
    requires store.Valid() && PointBack(store) && StatusesAre(store, t) && m in store.byName.Values && m.code == null
    modifies m`code
    ensures store.Valid() && store.Abs() == old(store.Abs()) && PointBack(store)
    ensures m.code != null && m.code in Codes(store) && fresh(m.code) && m.code.status == Unknown
    ensures StatusesAre(store, t[m.filename := Some(Unknown)]) && fresh(Codes(store) - old(Codes(store)))
  {
    hide Indexes;
    m.code := new Module(m);
    forall f | f in store.byName && f != m.filename
      ensures Keeps(f, store.byName[f], t)
    {
      assert store.byName[f] in store.byName.Values && store.byName[f] != m;
    }
    OneStatus(store, m, t, Unknown);
  }

  /** The module has been parsed. */
  method SetParsed(store: Store, m: Mapping, ghost t: map<CString, Option<Status>>)
    requires store.Valid() && PointBack(store) && StatusesAre(store, t) && m in store.byName.Values && m.code != null
    modifies m.code`status
    ensures store.Valid() && store.Abs() == old(store.Abs()) && PointBack(store)
    ensures StatusesAre(store, t[m.filename := Some(Parsed)]) && Codes(store) == old(Codes(store))
  {
    hide Indexes;
    m.code.status := Parsed;
    assert store.byName[m.filename] == m;
    forall f | f in store.byName && f != m.filename
      ensures Keeps(f, store.byName[f], t)
    {
      assert store.byName[f] in store.byName.Values && store.byName[f] != m;
    }
    OneStatus(store, m, t, Parsed);
  }

  /** Mapping m has a module of its own with status s, and t tells about all others. */
  lemma OneStatus(store: Store, m: Mapping, t: map<CString, Option<Status>>, s: Status)
    requires store.Named() && m in store.byName.Values
    requires forall f :: f in store.byName && f != m.filename ==> Keeps(f, store.byName[f], t)
    requires m.code != null && m.code.mapping == m && m.code.status == s
    ensures PointBack(store) && StatusesAre(store, t[m.filename := Some(s)])
  {
    var t' := t[m.filename := Some(s)];
    forall f | f in store.byName
      ensures Keeps(f, store.byName[f], t')
    {
      if f != m.filename {
        assert Keeps(f, store.byName[f], t);
      }
    }
    assert forall f :: f in store.byName ==> Keeps(f, store.byName[f], t');
  }
}
