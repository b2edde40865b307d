/** The life of modules over whole runs in which mappings are created, deleted, and run into by translation blocks. */
module ModuleRuns {
  import opened Words
  import opened SearchTree
  import opened MappingStore
  import opened StoreModules
  import StoreRuns

  datatype Op =
    | OnTable(op: StoreRuns.Op)
    | /** A translation block; `done` says whether an attempt at parsing would succeed now. */
      Block(pc: Word64, done: bool)

  type Statuses = map<CString, Option<Status>>

  /** A block searches the table like a find. */
  function TableOp(op: Op): StoreRuns.Op {
    match op
    case OnTable(o) => o
    case Block(pc, _) => StoreRuns.FindAt(pc)
  }

  function TableOps(ops: seq<Op>): seq<StoreRuns.Op> {
    seq(|ops|, i requires 0 <= i < |ops| => TableOp(ops[i]))
  }

  /** What an operation with this answer does to the module statuses. */
  function StatusNext(t: Statuses, op: Op, answer: Option<CString>): Statuses {
    match op
    case OnTable(Map(f, _, _, _, _)) => t[f := if f in t then t[f] else None]
    case OnTable(Unmap(_, _)) => if answer == None then t else t - {answer.value}
    case OnTable(FindAt(_)) => t
    case Block(_, done) =>
      match answer
      case None => t
      case Some(f) => t[f := Some(if done || (f in t && t[f] == Some(Parsed)) then Parsed else Unknown)]
  }

  /** The statuses after the first n operations of a run that got these answers. */
  function StatusRun(ops: seq<Op>, answers: seq<Option<CString>>, n: nat): Statuses
    requires n <= |ops| && n <= |answers|
  {
    if n == 0 then map[] else StatusNext(StatusRun(ops, answers, n - 1), ops[n - 1], answers[n - 1])
  }

  lemma {:induction false} StatusRunOfPrefix(ops: seq<Op>, answers: seq<Option<CString>>, answer: Option<CString>,
                                             n: nat)
    requires n <= |ops| && n <= |answers|
    ensures StatusRun(ops, answers + [answer], n) == StatusRun(ops, answers, n)
    decreases n
  {
    if n > 0 {
      StatusRunOfPrefix(ops, answers, answer, n - 1);
    }
  }

  // ----- the objects -----

  /** A translation block in mapping m: its module is made on first use, and parsed unless that has succeeded before. */
  method RunInto(s: Store, m: Mapping, done: bool, ghost t: Statuses)
    requires s.Valid() && PointBack(s) && StatusesAre(s, t) && m in s.byName.Values
    modifies m`code, Codes(s)
    ensures s.Valid() && s.Abs() == old(s.Abs()) && PointBack(s)
    ensures StatusesAre(s, StatusNext(t, Block(0, done), Some(m.filename)))
    ensures s.byName == old(s.byName) && fresh(Codes(s) - old(Codes(s)))
  {
    hide Indexes, PointBack, StatusesAre;
    EnsureModule(s, m, t);
    if done && m.code.status == Unknown {
      SetParsed(s, m, t[m.filename := Some(Unknown)]);
      assert t[m.filename := Some(Unknown)][m.filename := Some(Parsed)] == t[m.filename := Some(Parsed)];
    }
  }

  /** One operation on the objects. */
  method Perform(s: Store, op: Op, ghost t: Statuses) returns (answer: Option<CString>)
    requires s.Valid() && PointBack(s) && StatusesAre(s, t) && t.Keys == s.byName.Keys
    modifies s, s.byName.Values, Codes(s)
    ensures StoreRuns.Possible(old(s.Abs()), TableOp(op), answer)
    ensures s.Abs() == StoreRuns.After(old(s.Abs()), TableOp(op), answer)
    ensures s.Valid() <==> (TableOp(op).Map? ==> Unshared(s.Abs(), TableOp(op).file))
    ensures PointBack(s) && StatusesAre(s, StatusNext(t, op, answer))
    ensures fresh(s.byName.Values - old(s.byName.Values)) && fresh(Codes(s) - old(Codes(s)))
  {
    hide Indexes, Unshared, Answer, PointBack, StatusesAre, Created;
    match op {
      case OnTable(Map(file, base, size, stealPlan, insertPlan)) =>
        CreateKeeping(s, file, base, size, stealPlan, insertPlan, t);
        answer := None;
      case OnTable(Unmap(addr, plan)) =>
        answer := DeleteKeeping(s, addr, plan, t);
      case OnTable(FindAt(addr)) =>
        var m := s.Find(addr);
        answer := s.NameOf(m);
      case Block(pc, done) =>
        var m := s.Find(pc);
        answer := s.NameOf(m);
        if m != null {
          RunInto(s, m, done, t);
        }
    }
  }

  lemma {:induction false} LeadsFurther(a: Table, ops: seq<StoreRuns.Op>, answers: seq<Option<CString>>, z: Table,
                                        op: StoreRuns.Op, answer: Option<CString>)
    requires StoreRuns.Leads(a, ops, answers, z) && StoreRuns.Possible(z, op, answer)
    ensures StoreRuns.Leads(a, ops + [op], answers + [answer], StoreRuns.After(z, op, answer))
    decreases |ops|
  {
    if ops != [] {
      LeadsFurther(StoreRuns.After(a, ops[0], answers[0]), ops[1..], answers[1..], z, op, answer);
      assert (ops + [op])[1..] == ops[1..] + [op] && (answers + [answer])[1..] == answers[1..] + [answer];
    }
  }

  lemma SameKeys(a: Table, t: Statuses, op: Op, answer: Option<CString>)
    requires t.Keys == a.Keys && StoreRuns.Possible(a, TableOp(op), answer)
    ensures StatusNext(t, op, answer).Keys == StoreRuns.After(a, TableOp(op), answer).Keys
  {}

  /** Over a run without collisions the modules have the statuses that the operations and their answers lead to. */
  method Replay(s: Store, ops: seq<Op>) returns (answers: seq<Option<CString>>)
    requires s.Valid() && s.byName == map[] && StoreRuns.CollisionFree(map[], TableOps(ops))
    modifies s
    ensures s.Valid() && PointBack(s) && StoreRuns.Leads(map[], TableOps(ops), answers, s.Abs())
    ensures |answers| == |ops| && StatusesAre(s, StatusRun(ops, answers, |ops|))
    ensures StatusRun(ops, answers, |ops|).Keys == s.byName.Keys
  {
    hide Indexes, Answer, Unshared;
    answers := [];
    assert s.Abs() == map[];
    while |answers| < |ops|
      invariant |answers| <= |ops| && s.Valid() && PointBack(s)
      invariant StatusesAre(s, StatusRun(ops, answers, |answers|))
      invariant StatusRun(ops, answers, |answers|).Keys == s.byName.Keys
      invariant StoreRuns.Leads(map[], TableOps(ops)[..|answers|], answers, s.Abs())
      invariant StoreRuns.CollisionFree(s.Abs(), TableOps(ops)[|answers|..])
      invariant fresh(s.byName.Values) && fresh(Codes(s))
    {
      answers := OneMore(s, ops, answers);
    }
    assert TableOps(ops)[..|answers|] == TableOps(ops);
  }

  method OneMore(s: Store, ops: seq<Op>, answers: seq<Option<CString>>) returns (answers': seq<Option<CString>>)
    requires |answers| < |ops| && s.Valid() && PointBack(s) && StatusesAre(s, StatusRun(ops, answers, |answers|))
    requires StatusRun(ops, answers, |answers|).Keys == s.byName.Keys
    requires StoreRuns.Leads(map[], TableOps(ops)[..|answers|], answers, s.Abs())
    requires StoreRuns.CollisionFree(s.Abs(), TableOps(ops)[|answers|..])
    modifies s, s.byName.Values, Codes(s)
    ensures |answers'| == |answers| + 1 && s.Valid() && PointBack(s)
    ensures StatusesAre(s, StatusRun(ops, answers', |answers'|))
    ensures StatusRun(ops, answers', |answers'|).Keys == s.byName.Keys
    ensures StoreRuns.Leads(map[], TableOps(ops)[..|answers'|], answers', s.Abs())
    ensures StoreRuns.CollisionFree(s.Abs(), TableOps(ops)[|answers'|..])
    ensures fresh(s.byName.Values - old(s.byName.Values)) && fresh(Codes(s) - old(Codes(s)))
  {
    hide Indexes, Answer, Unshared, PointBack, StatusesAre;
    ghost var n, before, t := |answers|, s.Abs(), StatusRun(ops, answers, |answers|);
    ghost var tops := TableOps(ops);
    NamedAre(s, s.byName);
    var answer := Perform(s, ops[|answers|], t);
    answers' := answers + [answer];
    StatusRunOfPrefix(ops, answers, answer, n);
    SameKeys(before, t, ops[n], answer);
    NamedAre(s, s.byName);
    LeadsFurther(map[], tops[..n], answers, before, tops[n], answer);
    assert tops[..n + 1] == tops[..n] + [tops[n]] && tops[n..][0] == tops[n] && tops[n..][1..] == tops[n + 1..];
  }

  // ----- when a mapping is parsed -----

  /** Operation k is a block in the mapping of f. */
  predicate BlockAt(ops: seq<Op>, answers: seq<Option<CString>>, k: nat, f: CString)
    requires k < |ops| <= |answers|
  {
    ops[k].Block? && answers[k] == Some(f)
  }

  /** Operation k deletes the mapping of f. */
  predicate DeletesAt(ops: seq<Op>, answers: seq<Option<CString>>, k: nat, f: CString)
    requires k < |ops| <= |answers|
  {
    ops[k].OnTable? && ops[k].op.Unmap? && answers[k] == Some(f)
  }

  /** Operation k is a block that parses the module of f, or finds it parsed, and f is not deleted after it. */
  ghost predicate ParsedBy(ops: seq<Op>, answers: seq<Option<CString>>, n: nat, k: nat, f: CString)
    requires n <= |ops| <= |answers|
  {
    && k < n && BlockAt(ops, answers, k, f) && ops[k].done
    && forall j: nat :: k < j < n ==> !DeletesAt(ops, answers, j, f)
  }

  /** A module is parsed exactly when a block parsed it since its mapping was last deleted. */
  lemma {:induction false} ParsedExactly(ops: seq<Op>, answers: seq<Option<CString>>, n: nat, f: CString)
    requires n <= |ops| <= |answers|
    ensures var t := StatusRun(ops, answers, n);
            f in t && t[f] == Some(Parsed) <==> exists k: nat :: ParsedBy(ops, answers, n, k, f)
    decreases n
  {
    if n > 0 {
      var m := n - 1;
      ParsedExactly(ops, answers, m, f);
      if BlockAt(ops, answers, m, f) && ops[m].done {
        assert ParsedBy(ops, answers, n, m, f);
      } else if k: nat :| ParsedBy(ops, answers, m, k, f) {
        assert DeletesAt(ops, answers, m, f) || ParsedBy(ops, answers, n, k, f);
      } else {
        assert forall k: nat :: ParsedBy(ops, answers, n, k, f) && k < m ==> ParsedBy(ops, answers, m, k, f);
      }
    }
  }

  /** A mapping that is made again after it was deleted starts without a module, until a block runs into it. */
  lemma {:induction false} StartsAgain(ops: seq<Op>, answers: seq<Option<CString>>, k: nat, n: nat, f: CString)
    requires k < n <= |ops| <= |answers| && DeletesAt(ops, answers, k, f)
    requires forall j: nat :: k < j < n ==> !BlockAt(ops, answers, j, f)
    ensures var t := StatusRun(ops, answers, n); f in t ==> t[f] == None
    decreases n
  {
    if k < n - 1 {
      assert !BlockAt(ops, answers, n - 1, f);
      StartsAgain(ops, answers, k, n - 1, f);
    }
  }
}
