/** Whole runs of mapping operations against the plain table file name -> interval. */
module StoreRuns {
  import opened Words
  import opened SearchTree
  import opened MappingStore

  datatype Op =
    | Map(file: CString, base: Word64, size: Word64, stealPlan: seq<Turn>, insertPlan: seq<Turn>)
    | Unmap(addr: Word64, plan: seq<Turn>)
    | FindAt(addr: Word64)

  /** What an operation does to the plain table. */
  ghost function Next(a: Table, op: Op): Table {
    match op
    case Map(f, base, size, _, _) => Created(a, f, base, size)
    case Unmap(addr, _) => (match Owner(a, addr) case None => a case Some(f) => a - {f})
    case FindAt(_) => a
  }

  ghost function Final(a: Table, ops: seq<Op>): Table
    decreases |ops|
  {
    if ops == [] then a else Final(Next(a, ops[0]), ops[1..])
  }

  /** The files the FindAt operations of a run name, by linear scan of the plain table. */
  ghost function Answers(a: Table, ops: seq<Op>): seq<Option<CString>>
    decreases |ops|
  {
    if ops == [] then []
    else (if ops[0].FindAt? then [Owner(a, ops[0].addr)] else []) + Answers(Next(a, ops[0]), ops[1..])
  }

  /** Every table of the run is separated. */
  ghost predicate Disciplined(a: Table, ops: seq<Op>)
    decreases |ops|
  {
    Separated(a) && (ops != [] ==> Disciplined(Next(a, ops[0]), ops[1..]))
  }

  lemma SeparatedIsUnshared(a: Table, f: CString)
    requires Separated(a) && f in a
    ensures Unshared(a, f)
  {
    forall g | g in a && g != f
      ensures a[g] != a[f]
    {
      assert a[g].End() == a[g].base + a[g].size;
    }
  }

  method PerformMap(s: Store, op: Op)
    requires op.Map? && s.Valid() && Separated(Next(s.Abs(), op))
    modifies s, s.byName.Values
    ensures s.Valid() && fresh(s.byName.Values - old(s.byName.Values))
    ensures s.Abs() == Next(old(s.Abs()), op)
  {
    SeparatedIsUnshared(Next(s.Abs(), op), op.file);
    s.Create(op.file, op.base, op.size, op.stealPlan, op.insertPlan);
  }

  method PerformUnmap(s: Store, op: Op)
    requires op.Unmap? && s.Valid() && Separated(s.Abs())
    modifies s
    ensures s.Valid() && s.byName.Values <= old(s.byName.Values)
    ensures s.Abs() == Next(old(s.Abs()), op)
    ensures var a := old(s.Abs());
            forall f :: f in s.Abs() <==> f in a && !(a[f].base <= op.addr < a[f].base + a[f].size)
  {
    ghost var before := s.Abs();
    var m := s.Delete(op.addr, op.plan);
    AnswerIsOwner(before, op.addr, s.NameOf(m));
    OwnerByAddress(before, op.addr);
  }

  method PerformFind(s: Store, op: Op) returns (answer: Option<CString>)
    requires op.FindAt? && s.Valid() && Separated(s.Abs())
    ensures answer == Owner(s.Abs(), op.addr)
    ensures forall f :: answer == Some(f) <==>
                        f in s.Abs() && s.Abs()[f].base <= op.addr < s.Abs()[f].base + s.Abs()[f].size
  {
    OwnerByAddress(s.Abs(), op.addr);
    var m := s.Find(op.addr);
    AnswerIsOwner(s.Abs(), op.addr, s.NameOf(m));
    answer := s.NameOf(m);
  }

  /** A new mapping is found from its base on, up to the byte before its end. */
  method CreateThenFind(s: Store, f: CString, base: Word64, size: Word64, addr: Word64,
                        stealPlan: seq<Turn>, insertPlan: seq<Turn>)
    returns (answer: Option<CString>)
    requires s.Valid() && f !in s.Abs() && base <= addr < base + size && Separated(s.Abs()[f := Key(base, size)])
    modifies s, s.byName.Values
    ensures s.Valid() && s.Abs() == old(s.Abs())[f := Key(base, size)] && answer == Some(f)
  {
    PerformMap(s, Map(f, base, size, stealPlan, insertPlan));
    answer := PerformFind(s, FindAt(addr));
  }

  /** A delete at the base of a mapping removes this mapping and no other. */
  method DeleteAtBase(s: Store, f: CString, plan: seq<Turn>)
    requires s.Valid() && f in s.byName && Separated(s.Abs())
    modifies s
    ensures s.Valid() && s.Abs() == old(s.Abs()) - {f}
  {
    ghost var a := s.Abs();
    assert s.byName[f] in s.byName.Values && a[f] == KeyOf(s.byName[f]);
    OwnerByAddress(a, a[f].base);
    PerformUnmap(s, Unmap(s.byName[f].base, plan));
  }

  /** The two indexes simulate the plain table over a whole run, on every shape the trees may take. */
  method Replay(s: Store, ops: seq<Op>) returns (answers: seq<Option<CString>>)
    requires s.Valid() && Disciplined(s.Abs(), ops)
    modifies s, s.byName.Values
    ensures s.Valid()
    ensures s.Abs() == Final(old(s.Abs()), ops)
    ensures answers == Answers(old(s.Abs()), ops)
    decreases |ops|
  {
    hide Indexes;
    answers := [];
    if ops != [] {
      match ops[0] {
        case Map(_, _, _, _, _) =>
          PerformMap(s, ops[0]);
        case Unmap(_, _) =>
          PerformUnmap(s, ops[0]);
        case FindAt(_) =>
          var answer := PerformFind(s, ops[0]);
          answers := [answer];
      }
      var rest := Replay(s, ops[1..]);
      answers := answers + rest;
    }
  }

  // ----- runs with overlapping intervals -----

  /** What mapping_find may answer to an operation; a mapping call has no answer. */
  ghost predicate Possible(a: Table, op: Op, answer: Option<CString>) {
    match op
    case Map(_, _, _, _, _) => answer == None
    case Unmap(addr, _) => Answer(a, addr, answer)
    case FindAt(addr) => Answer(a, addr, answer)
  }

  /** The table after an operation that got this answer. */
  ghost function After(a: Table, op: Op, answer: Option<CString>): Table {
    match op
    case Map(f, base, size, _, _) => Created(a, f, base, size)
    case Unmap(_, _) => if answer == None then a else a - {answer.value}
    case FindAt(_) => a
  }

  /** No mapping call of the run, whatever was answered before, leaves its file with the interval of another one. */
  ghost predicate CollisionFree(a: Table, ops: seq<Op>)
    decreases |ops|
  {
    ops != [] ==>
      && (ops[0].Map? ==> Unshared(After(a, ops[0], None), ops[0].file))
      && forall answer :: Possible(a, ops[0], answer) ==> CollisionFree(After(a, ops[0], answer), ops[1..])
  }

  /** These may be the answers of the run, which then leads from table a to table z. */
  ghost predicate Leads(a: Table, ops: seq<Op>, answers: seq<Option<CString>>, z: Table)
    decreases |ops|
  {
    |answers| == |ops|
    && if ops == [] then z == a
       else Possible(a, ops[0], answers[0]) && Leads(After(a, ops[0], answers[0]), ops[1..], answers[1..], z)
  }

  /** One operation in any table: the indexes agree after it exactly when it makes no collision. */
  method Perform(s: Store, op: Op) returns (answer: Option<CString>)
    requires s.Valid()
    modifies s, s.byName.Values
    ensures Possible(old(s.Abs()), op, answer) && s.Abs() == After(old(s.Abs()), op, answer)
    ensures s.Valid() <==> (op.Map? ==> Unshared(s.Abs(), op.file))
    ensures fresh(s.byName.Values - old(s.byName.Values))
  {
    hide Indexes;
    answer := None;
    match op {
      case Map(file, base, size, stealPlan, insertPlan) =>
        s.Create(file, base, size, stealPlan, insertPlan);
      case Unmap(addr, plan) =>
        var m := s.Delete(addr, plan);
        answer := s.NameOf(m);
      case FindAt(addr) =>
        var m := s.Find(addr);
        answer := s.NameOf(m);
    }
  }

  /**
   Over a run without collisions the indexes agree, whether or not intervals overlap, and every answer is a possible
   one.
   */
  method ReplayOverlapping(s: Store, ops: seq<Op>) returns (answers: seq<Option<CString>>)
    requires s.Valid() && CollisionFree(s.Abs(), ops)
    modifies s, s.byName.Values
    ensures s.Valid() && Leads(old(s.Abs()), ops, answers, s.Abs())
    decreases |ops|
  {
    hide Indexes, Answer, Unshared;
    answers := [];
    if ops != [] {
      var answer := Perform(s, ops[0]);
      var rest := ReplayOverlapping(s, ops[1..]);
      answers := [answer] + rest;
    }
  }

  /** Disciplined runs are free of collisions. */
  lemma {:induction false} DisciplinedIsCollisionFree(a: Table, ops: seq<Op>)
    requires Disciplined(a, ops)
    ensures CollisionFree(a, ops)
    decreases |ops|
  {
    if ops != [] {
      var op, next := ops[0], Next(a, ops[0]);
      assert Separated(next);
      if op.Map? {
        SeparatedIsUnshared(next, op.file);
      }
      forall answer | Possible(a, op, answer)
        ensures CollisionFree(After(a, op, answer), ops[1..])
      {
        if op.Unmap? {
          AnswerIsOwner(a, op.addr, answer);
        }
        assert After(a, op, answer) == next;
        DisciplinedIsCollisionFree(next, ops[1..]);
      }
    }
  }

  // ----- the hull of repeated mappings -----

  ghost predicate Plain(op: Op) {
    op.Map? && op.base + op.size < TWO_TO_64
  }

  predicate On(op: Op, f: CString) {
    op.Map? && op.file == f
  }

  ghost predicate NoWrap(a: Table) {
    forall f :: f in a ==> a[f].base + a[f].size < TWO_TO_64
  }

  /** v is the least base of f among its entry in a and the operations of the run. */
  ghost predicate LeastBase(v: int, a: Table, ops: seq<Op>, f: CString)
  {
    && (f in a ==> v <= a[f].base)
    && (forall op :: op in ops && On(op, f) ==> v <= op.base)
    && ((f in a && v == a[f].base) || exists op :: op in ops && On(op, f) && v == op.base)
  }

  ghost predicate GreatestEnd(v: int, a: Table, ops: seq<Op>, f: CString)
  {
    && (f in a ==> a[f].base + a[f].size <= v)
    && (forall op :: op in ops && On(op, f) ==> op.base + op.size <= v)
    && ((f in a && v == a[f].base + a[f].size) || exists op :: op in ops && On(op, f) && v == op.base + op.size)
  }

  lemma HullStep(k: Key, base: Word64, size: Word64)
    requires k.base + k.size < TWO_TO_64 && base + size < TWO_TO_64
    ensures var h := Hull(k, base, size);
            && h.base == (if k.base > base then base else k.base)
            && h.base + h.size == (if k.base + k.size < base + size then base + size else k.base + k.size)
  {}

  /** After any run of mapping_create calls each file has exactly the hull of its intervals. */
  lemma {:induction false} HullFold(a: Table, ops: seq<Op>, f: CString)
    requires NoWrap(a) && forall op :: op in ops ==> Plain(op)
    ensures f in Final(a, ops) <==> f in a || exists op :: op in ops && On(op, f)
    ensures f in Final(a, ops) ==>
              var k := Final(a, ops)[f];
              LeastBase(k.base, a, ops, f) && GreatestEnd(k.base + k.size, a, ops, f) && k.base + k.size < TWO_TO_64
    decreases |ops|
  {
    if ops != [] {
      var op, rest := ops[0], ops[1..];
      assert Plain(op) && forall x :: x in ops <==> x == op || x in rest;
      if op.file in a {
        HullStep(a[op.file], op.base, op.size);
      }
      HullFold(Next(a, op), rest, f);
      if f in Final(a, ops) {
        HullExtends(a, op, rest, f, Final(a, ops)[f]);
        assert ops == [op] + rest;
      }
    }
  }

  lemma HullExtends(a: Table, op: Op, rest: seq<Op>, f: CString, k: Key)
    requires NoWrap(a) && Plain(op)
    requires LeastBase(k.base, Next(a, op), rest, f) && GreatestEnd(k.base + k.size, Next(a, op), rest, f)
    ensures LeastBase(k.base, a, [op] + rest, f) && GreatestEnd(k.base + k.size, a, [op] + rest, f)
  {
    assert op in [op] + rest && forall x :: x in rest ==> x in [op] + rest;
    if op.file in a {
      HullStep(a[op.file], op.base, op.size);
    }
  }

  /** The calls may come in any order. */
  lemma HullIgnoresOrder(a: Table, ops: seq<Op>, ops': seq<Op>)
    requires NoWrap(a) && multiset(ops) == multiset(ops')
    requires forall op :: op in ops ==> Plain(op)
    ensures Final(a, ops) == Final(a, ops')
  {
    assert forall op :: op in ops <==> op in multiset(ops);
    assert forall op :: op in ops' <==> op in multiset(ops');
    forall f
      ensures f in Final(a, ops) <==> f in Final(a, ops')
      ensures f in Final(a, ops) ==> Final(a, ops)[f] == Final(a, ops')[f]
    {
      HullFold(a, ops, f);
      HullFold(a, ops', f);
    }
  }

  /** No address a file covers is ever given up, and files outside the run keep their interval. */
  lemma HullGrows(a: Table, ops: seq<Op>, f: CString, x: Word64)
    requires NoWrap(a) && f in a && forall op :: op in ops ==> Plain(op)
    ensures f in Final(a, ops)
    ensures var k := Final(a, ops)[f];
            a[f].base <= x < a[f].base + a[f].size ==> k.base <= x < k.base + k.size
    ensures (forall op :: op in ops ==> !On(op, f)) ==> Final(a, ops)[f] == a[f]
  {
    hide Final, Plain;
    HullFold(a, ops, f);
  }
}
