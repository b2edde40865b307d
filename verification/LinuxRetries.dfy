/**
 Convergence of retries over whole runs: once a mapping is parsed, its failed attempts might as well not have
 happened.
 */
module LinuxRetries {
  import opened Words
  import opened GuestMemory
  import opened FunctionTable
  import opened MappingStore
  import opened ImageReading
  import opened ElfReader
  import opened ElfProperties
  import opened LinuxProcess
  import opened LinuxModules

  /** Event k is a block in file f. */
  predicate BlockIn(e: Event, f: CString) {
    e.BeforeTb? && e.found == Some(f)
  }

  /** The history in which the blocks in f before event j find no mapping. */
  ghost function Quiet(h: History, j: nat, f: CString): History {
    seq(|h|, k requires 0 <= k < |h| => if k < j && BlockIn(h[k], f) then h[k].(found := None) else h[k])
  }

  /** Everything but the mappings and functions is the same. */
  ghost predicate SameRest(p: Proc, q: Proc) {
    && q.clock == p.clock && q.strings == p.strings && q.freed == p.freed && q.live == p.live && q.files == p.files
    && q.syscalls == p.syscalls && q.dangling == p.dangling && q.clashed == p.clashed
  }

  lemma RestAllocate(p: Proc, q: Proc, path: CString)
    requires SameRest(p, q)
    ensures SameRest(Allocate(p, path), Allocate(q, path)) && NewName(p, path) == NewName(q, path)
  {}

  lemma RestFree(p: Proc, q: Proc, name: Ptr)
    requires SameRest(p, q)
    ensures SameRest(Free(p, name), Free(q, name))
  {}

  lemma RestPend(p: Proc, q: Proc, sp: Word64, r: Pending)
    requires SameRest(p, q)
    ensures SameRest(p.(syscalls := p.syscalls[sp := r]), q.(syscalls := q.syscalls[sp := r]))
    ensures SameRest(p.(syscalls := p.syscalls - {sp}), q.(syscalls := q.syscalls - {sp}))
  {}

  lemma RestEnter(p: Proc, q: Proc, e: Event)
    requires SameRest(p, q) && e.Enter?
    ensures SameRest(EnterStep(p, e), EnterStep(q, e))
  {
    RestAllocate(p, q, e.path);
    if e.sc == Execve {
      RestFree(Allocate(p, e.path), Allocate(q, e.path), NewName(p, e.path));
    } else {
      var p' := if OpenLike(e.sc) then Allocate(p, e.path) else p;
      var q' := if OpenLike(e.sc) then Allocate(q, e.path) else q;
      assert SameRest(p', q') && p'.syscalls == p.syscalls && q'.syscalls == q.syscalls;
      var r := EnterParams(p, e);
      assert EnterParams(q, e) == r;
      if r.Some? {
        RestPend(p', q', e.sp, Pending(e.sc, r.value));
      }
    }
  }

  lemma RestClose(p: Proc, q: Proc, fd: Handle)
    requires SameRest(p, q)
    ensures SameRest(FileClose(p, fd), FileClose(q, fd))
  {
    hide Free;
    if fd in p.files && p.files[fd] in p.live {
      RestFree(p, q, p.live[p.files[fd]].name);
    }
  }

  lemma RestOpen(p: Proc, q: Proc, name: Ptr, fd: Handle)
    requires SameRest(p, q)
    ensures SameRest(FileOpen(p, name, fd), FileOpen(q, name, fd))
  {
    RestClose(p, q, fd);
  }

  /** The two processes differ at most in failed attempts on f, whose tracepoints `all` covers. */
  ghost predicate Near(p: Proc, q: Proc, f: CString, all: seq<Tracepoint>) {
    && SameRest(p, q)
    && q.mappings.Keys == p.mappings.Keys && Intervals(q.mappings) == Intervals(p.mappings)
    && (forall g :: g in p.mappings && g != f ==> q.mappings[g] == p.mappings[g])
    && !IsParsed(p, f) && !IsParsed(q, f)
    && Record(p.functions, all) == Record(q.functions, all)
  }

  /** What two tables have in common under `all` survives other calls in between. */
  lemma RecordBetween(t: Entries, t': Entries, between: seq<Tracepoint>, all: seq<Tracepoint>)
    requires Record(t, all) == Record(t', all)
    ensures Record(Record(t, between), all) == Record(Record(t', between), all)
  {
    RecordTargets(t, all);
    RecordTargets(t', all);
    forall e | e !in Targets(all)
      ensures (e in Record(t, between) <==> e in Record(t', between))
      ensures e in Record(t, between) ==> Record(t', between)[e] == Record(t, between)[e]
    {
      assert e in t <==> e in Record(t, all);
      assert e in t' <==> e in Record(t', all);
      BetweenSame(t, t', between, e);
    }
    RecordCongruent(Record(t, between), Record(t', between), all);
  }

  lemma NearEnter(p: Proc, q: Proc, e: Event, f: CString, all: seq<Tracepoint>)
    requires Near(p, q, f, all) && e.Enter?
    ensures Near(Step(p, e), Step(q, e), f, all)
  {
    RestEnter(p, q, e);
    EnterFrame(p, e);
    EnterFrame(q, e);
    NearRest(p, q, EnterStep(p, e), EnterStep(q, e), f, all);
  }

  lemma CreateKeys(p: Proc, q: Proc, g: CString, base: Word64, size: Word64)
    requires Intervals(q.mappings) == Intervals(p.mappings)
    ensures MappingCreate(q, g, base, size).mappings.Keys == MappingCreate(p, g, base, size).mappings.Keys
  {
    hide Created, Unshared;
    assert p.mappings.Keys == Intervals(p.mappings).Keys == q.mappings.Keys;
  }

  /** What mapping_create leaves for file k, on two processes with equal intervals. */
  lemma CreateAt(p: Proc, q: Proc, g: CString, base: Word64, size: Word64, k: CString)
    requires Intervals(q.mappings) == Intervals(p.mappings) && q.mappings.Keys == p.mappings.Keys
    requires k in MappingCreate(p, g, base, size).mappings && k in MappingCreate(q, g, base, size).mappings
    ensures var m, n := MappingCreate(p, g, base, size).mappings, MappingCreate(q, g, base, size).mappings;
            && n[k].key == m[k].key
            && ((k in p.mappings ==> q.mappings[k] == p.mappings[k]) ==> n[k] == m[k])
  {
    hide Created, Unshared;
    assert k in p.mappings ==> q.mappings[k].key == Intervals(q.mappings)[k];
  }

  /** mapping_create on two processes with equal intervals. */
  lemma CreateTables(p: Proc, q: Proc, g: CString, base: Word64, size: Word64)
    requires Intervals(q.mappings) == Intervals(p.mappings) && q.mappings.Keys == p.mappings.Keys
    ensures var m, n := MappingCreate(p, g, base, size).mappings, MappingCreate(q, g, base, size).mappings;
            && n.Keys == m.Keys && Intervals(n) == Intervals(m)
            && forall k :: k in m && (k in p.mappings ==> q.mappings[k] == p.mappings[k]) ==> n[k] == m[k]
  {
    hide MappingCreate;
    CreateKeys(p, q, g, base, size);
    forall k | k in MappingCreate(p, g, base, size).mappings
      ensures var m, n := MappingCreate(p, g, base, size).mappings, MappingCreate(q, g, base, size).mappings;
              && n[k].key == m[k].key
              && ((k in p.mappings ==> q.mappings[k] == p.mappings[k]) ==> n[k] == m[k])
    {
      CreateAt(p, q, g, base, size, k);
    }
  }

  lemma UnparsedCreate(p: Proc, f: CString, g: CString, base: Word64, size: Word64)
    requires !IsParsed(p, f)
    ensures !IsParsed(MappingCreate(p, g, base, size), f)
  {
    hide Created, Unshared;
  }

  lemma RestCreate(p: Proc, q: Proc, g: CString, base: Word64, size: Word64)
    requires SameRest(p, q) && Intervals(q.mappings) == Intervals(p.mappings)
    ensures SameRest(MappingCreate(p, g, base, size), MappingCreate(q, g, base, size))
  {
    hide Created, Unshared;
  }

  lemma NearCreate(p: Proc, q: Proc, f: CString, all: seq<Tracepoint>, g: CString, base: Word64, size: Word64)
    requires Near(p, q, f, all)
    ensures Near(MappingCreate(p, g, base, size), MappingCreate(q, g, base, size), f, all)
  {
    hide MappingCreate, SameRest, IsParsed, Intervals, Record;
    CreateTables(p, q, g, base, size);
    RestCreate(p, q, g, base, size);
    UnparsedCreate(p, f, g, base, size);
    UnparsedCreate(q, f, g, base, size);
    MapFrame(p, g, base, size);
    MapFrame(q, g, base, size);
  }

  /** Calls that neither map nor parse do the same to both. */
  lemma NearRest(p: Proc, q: Proc, p': Proc, q': Proc, f: CString, all: seq<Tracepoint>)
    requires Near(p, q, f, all) && SameRest(p', q')
    requires p'.mappings == p.mappings && p'.functions == p.functions
    requires q'.mappings == q.mappings && q'.functions == q.functions
    ensures Near(p', q', f, all)
  {}

  lemma NearFinish(p: Proc, q: Proc, sc: Pending, e: Event, f: CString, all: seq<Tracepoint>)
    requires Near(p, q, f, all) && e.Exit?
    ensures Near(Finish(p, sc, e), Finish(q, sc, e), f, all)
  {
    if sc.params.MapFileParams? {
      NearFinishMap(p, q, sc, e, f, all);
    } else {
      FinishFrame(p, sc, e);
      FinishFrame(q, sc, e);
      RestFinish(p, q, sc, e);
      NearRest(p, q, Finish(p, sc, e), Finish(q, sc, e), f, all);
    }
  }

  lemma RestFinish(p: Proc, q: Proc, sc: Pending, e: Event)
    requires SameRest(p, q) && e.Exit? && !sc.params.MapFileParams?
    ensures SameRest(Finish(p, sc, e), Finish(q, sc, e))
  {
    match sc.params
    case FileParams(name) =>
      RestOpen(p, q, name, e.ret);
      RestFree(p, q, name);
    case CloseParams(fd) => RestClose(p, q, fd);
  }

  lemma NearFinishMap(p: Proc, q: Proc, sc: Pending, e: Event, f: CString, all: seq<Tracepoint>)
    requires Near(p, q, f, all) && e.Exit? && sc.params.MapFileParams?
    ensures Near(Finish(p, sc, e), Finish(q, sc, e), f, all)
  {
    var file := sc.params.file;
    if sc.num == Mmap && file !in p.live {
      NearRest(p, q, p.(dangling := true), q.(dangling := true), f, all);
    } else if sc.num == Mmap && MmapOk(e.abi, e.ret) {
      NearCreate(p, q, f, all, Deref(p, p.live[file].name), e.ret, sc.params.size);
    }
  }

  lemma NearExit(p: Proc, q: Proc, e: Event, f: CString, all: seq<Tracepoint>)
    requires Near(p, q, f, all) && e.Exit?
    ensures Near(Step(p, e), Step(q, e), f, all)
  {
    if e.sp in p.syscalls {
      NearFinish(p, q, p.syscalls[e.sp], e, f, all);
    }
  }

  /** What a block does that reads the mapping of file g. */
  function Attempted(p: Proc, g: CString, m: Mapped, added: seq<Tracepoint>): Proc {
    p.(mappings := p.mappings[g := m], functions := Record(p.functions, added))
  }

  lemma NearAttempted(p: Proc, q: Proc, f: CString, all: seq<Tracepoint>, g: CString, m: Mapped, added: seq<Tracepoint>)
    requires Near(p, q, f, all) && g in p.mappings && g != f && m.key == p.mappings[g].key
    ensures Near(Attempted(p, g, m, added), Attempted(q, g, m, added), f, all)
  {
    RecordBetween(p.functions, q.functions, added, all);
    assert Intervals(q.mappings)[g] == Intervals(p.mappings)[g];
    assert Intervals(p.mappings[g := m]) == Intervals(p.mappings);
    assert Intervals(q.mappings[g := m]) == Intervals(q.mappings);
  }

  lemma BlockEffect(p: Proc, e: Event, g: CString) returns (m: Mapped, added: seq<Tracepoint>)
    requires BlockIn(e, g) && g in p.mappings && !IsParsed(p, g)
    ensures TbStep(p, e) == Attempted(p, g, m, added) && m.key == p.mappings[g].key
    ensures added == Parse(e.mem, p.mappings[g].key.base, g).added && (m.status == Some(Parsed) <==> Parses(p, e, g))
    ensures forall q: Proc :: g in q.mappings && q.mappings[g] == p.mappings[g] ==>
                                TbStep(q, e) == Attempted(q, g, m, added)
  {
    var o := Parse(e.mem, p.mappings[g].key.base, g);
    m, added := p.mappings[g].(status := Some(if o.verdict == Done then Parsed else Unknown)), o.added;
  }

  /** A block in another file does the same to both. */
  lemma NearBlock(p: Proc, q: Proc, e: Event, f: CString, all: seq<Tracepoint>)
    requires Near(p, q, f, all) && e.BeforeTb? && !BlockIn(e, f)
    ensures Near(TbStep(p, e), TbStep(q, e), f, all)
  {
    if e.found.Some? && e.found.value in p.mappings && !IsParsed(p, e.found.value) {
      var g := e.found.value;
      var m, added := BlockEffect(p, e, g);
      assert q.mappings[g] == p.mappings[g];
      NearAttempted(p, q, f, all, g, m, added);
    } else {
      assert TbStep(p, e) == p && TbStep(q, e) == q;
    }
  }

  lemma NearTick(p: Proc, q: Proc, f: CString, all: seq<Tracepoint>)
    requires Near(p, q, f, all)
    ensures Near(Tick(p), Tick(q), f, all)
  {}

  /** A failed attempt on f adds a prefix of `all`, so leaving it out makes no difference. */
  lemma NearAttempt(p: Proc, q: Proc, e: Event, f: CString, all: seq<Tracepoint>)
    requires Near(p, q, f, all) && BlockIn(e, f) && !Parses(p, e, f)
    requires f in p.mappings ==> Parse(e.mem, p.mappings[f].key.base, f).added <= all
    ensures Near(Step(p, e), Step(q, e.(found := None)), f, all)
  {
    if f in p.mappings {
      var m, added := BlockEffect(p, e, f);
      assert Parse(e.mem, p.mappings[f].key.base, f).verdict != Done;
      NearFailed(p, q, f, all, m, added);
    }
    assert TbStep(q, e.(found := None)) == q;
    NearTick(TbStep(p, e), q, f, all);
  }

  lemma NearFailed(p: Proc, q: Proc, f: CString, all: seq<Tracepoint>, m: Mapped, added: seq<Tracepoint>)
    requires Near(p, q, f, all) && f in p.mappings && m.key == p.mappings[f].key && m.status != Some(Parsed)
             && added <= all
    ensures Near(Attempted(p, f, m, added), q, f, all)
  {
    PrefixIsAbsorbed(p.functions, added, [], all);
    assert Intervals(p.mappings[f := m]) == Intervals(p.mappings);
  }

  /** Event k, if it is an attempt on f, reads no more than event j, at the same base. */
  ghost predicate AttemptFits(h: History, k: nat, j: nat, f: CString)
    requires k < |h| && j < |h|
  {
    BlockIn(h[k], f) && f in Run(h, k).mappings ==>
      && h[j].BeforeTb? && f in Run(h, j).mappings
      && Extends(h[k].mem, h[j].mem) && Run(h, k).mappings[f].key.base == Run(h, j).mappings[f].key.base
  }

  /** After k events the histories with and without the attempts before j have led to near processes. */
  ghost predicate NearAt(h: History, j: nat, f: CString, k: nat, all: seq<Tracepoint>)
    requires k <= |h|
  {
    exists p, q :: p == Run(h, k) && q == Run(Quiet(h, j, f), k) && Near(p, q, f, all)
  }

  lemma NearStart(h: History, j: nat, f: CString, all: seq<Tracepoint>)
    ensures NearAt(h, j, f, 0, all)
  {
    assert Near(Run(h, 0), Run(Quiet(h, j, f), 0), f, all);
  }

  lemma QuietStep(h: History, j: nat, f: CString, k: nat)
    requires k < j < |h|
    ensures Run(h, k + 1) == Step(Run(h, k), h[k])
    ensures Run(Quiet(h, j, f), k + 1) ==
            Step(Run(Quiet(h, j, f), k), if BlockIn(h[k], f) then h[k].(found := None) else h[k])
  {}

  lemma NearNext(h: History, j: nat, f: CString, k: nat, all: seq<Tracepoint>)
    requires k < j < |h| && !Run(h, j).clashed && ParsesAt(h, j, f) && AttemptFits(h, k, j, f)
    requires all == Parse(h[j].mem, Run(h, j).mappings[f].key.base, f).added
    requires NearAt(h, j, f, k, all)
    ensures NearAt(h, j, f, k + 1, all)
  {
    var p, q, e := Run(h, k), Run(Quiet(h, j, f), k), h[k];
    if BlockIn(e, f) {
      if ParsesAt(h, k, f) {
        ParsedStays(h, k, j, f);
      }
      if f in p.mappings {
        ParseExtends(e.mem, h[j].mem, p.mappings[f].key.base, f);
      }
      NearAttempt(p, q, e, f, all);
    } else if e.BeforeTb? {
      NearBlock(p, q, e, f, all);
      NearTick(TbStep(p, e), TbStep(q, e), f, all);
    } else if e.Enter? {
      NearEnter(p, q, e, f, all);
    } else {
      NearExit(p, q, e, f, all);
    }
    QuietStep(h, j, f, k);
    assert Near(Run(h, k + 1), Run(Quiet(h, j, f), k + 1), f, all);
  }

  lemma MisfitAt(h: History, j: nat, f: CString, k: nat, all: seq<Tracepoint>)
    requires k < j < |h| && !Run(h, j).clashed && ParsesAt(h, j, f)
    requires all == Parse(h[j].mem, Run(h, j).mappings[f].key.base, f).added
    requires NearAt(h, j, f, k, all) && !NearAt(h, j, f, k + 1, all)
    ensures !AttemptFits(h, k, j, f)
  {
    if AttemptFits(h, k, j, f) {
      NearNext(h, j, f, k, all);
    }
  }

  /** Before event j the two processes differ in failed attempts only, unless one of the attempts does not fit. */
  lemma {:induction false} NearOrMisfit(h: History, j: nat, f: CString, k: nat, all: seq<Tracepoint>) returns (i: nat)
    requires k <= j < |h| && !Run(h, j).clashed && ParsesAt(h, j, f)
    requires all == Parse(h[j].mem, Run(h, j).mappings[f].key.base, f).added
    requires !NearAt(h, j, f, k, all)
    ensures i < k && !AttemptFits(h, i, j, f)
    decreases k
  {
    hide NearAt, AttemptFits, ParsesAt, Parse, Step;
    i := 0;
    if k == 0 {
      NearStart(h, j, f, all);
    } else if NearAt(h, j, f, k - 1, all) {
      i := k - 1;
      MisfitAt(h, j, f, k - 1, all);
    } else {
      i := NearOrMisfit(h, j, f, k - 1, all);
    }
  }

  /** The successful block makes the two processes equal. */
  lemma NearSuccess(p: Proc, q: Proc, e: Event, f: CString)
    requires Parses(p, e, f) && Near(p, q, f, Parse(e.mem, p.mappings[f].key.base, f).added)
    ensures Step(p, e) == Step(q, e)
  {
    hide EnterStep, ExitStep, Parse, Record;
    assert Intervals(p.mappings)[f] == Intervals(q.mappings)[f];
  }

  lemma SuccessLeavesNoTrace(h: History, j: nat, f: CString)
    requires j < |h| && !Run(h, j).clashed && ParsesAt(h, j, f)
    requires forall i: nat :: i < j ==> AttemptFits(h, i, j, f)
    ensures Run(Quiet(h, j, f), j + 1) == Run(h, j + 1)
  {
    var p, q := Run(h, j), Run(Quiet(h, j, f), j);
    var all := Parse(h[j].mem, p.mappings[f].key.base, f).added;
    if !NearAt(h, j, f, j, all) {
      var _ := NearOrMisfit(h, j, f, j, all);
    }
    NearSuccess(p, q, h[j], f);
    assert Run(Quiet(h, j, f), j + 1) == Step(q, h[j]);
  }

  /** Equal states and equal events from m on. */
  lemma {:induction false} SameSuffix(h: History, h': History, m: nat, n: nat)
    requires m <= n <= |h| == |h'| && Run(h, m) == Run(h', m)
    requires forall k :: m <= k < n ==> h[k] == h'[k]
    ensures Run(h', n) == Run(h, n)
    decreases n
  {
    hide Step;
    if m < n {
      SameSuffix(h, h', m, n - 1);
    }
  }

  /**
   Retries converge: when event j parses f, having read at least what the earlier attempts could, the process is
   from then on what it would be without those attempts.
   */
  lemma RetriesLeaveNoTrace(h: History, j: nat, f: CString, n: nat)
    requires j < n <= |h| && !Run(h, j).clashed && ParsesAt(h, j, f)
    requires forall i: nat :: i < j ==> AttemptFits(h, i, j, f)
    ensures Run(Quiet(h, j, f), n) == Run(h, n)
  {
    hide Run, Step, ParsesAt, AttemptFits;
    SuccessLeavesNoTrace(h, j, f);
    SameSuffix(h, Quiet(h, j, f), j + 1, n);
  }
}
