/** How far Windows processes are independent of each other. */
module WindowsInterleaving {
  import opened Words
  import opened WindowsSections

  // ----- two events of different processes -----

  /** The name for which event e registers a section, if it does. */
  ghost function RegisteredBy(w: World, e: Event): Option<seq<Byte>> {
    var p := Get(w, e.ctx);
    if Creates(p, e) && Nameable(p.syscalls[e.sp].name) then Some(p.syscalls[e.sp].name.bytes) else None
  }

  /** Event e successfully completes what is pending at its stack pointer. */
  ghost predicate Succeeds(w: World, e: Event) {
    e.Exit? && e.ret == 0 && e.sp in Get(w, e.ctx).syscalls
  }

  ghost predicate OpensName(w: World, e: Event, n: seq<Byte>) {
    Succeeds(w, e) && var r := Get(w, e.ctx).syscalls[e.sp]; r.OpenSectionParams? && r.name == Text(n)
  }

  ghost predicate MapsView(w: World, e: Event, s: Id) {
    Succeeds(w, e) && var r := Get(w, e.ctx).syscalls[e.sp]; r.MapSectionParams? && r.section == s
  }

  /** Event b looks at what event a registers or destroys: it opens the name, or maps a view of its old section. */
  ghost predicate Sees(w: World, a: Event, b: Event) {
    match RegisteredBy(w, a)
    case None => false
    case Some(n) => OpensName(w, b, n) || (n in w.shared.named && MapsView(w, b, w.shared.named[n]))
  }

  /** Both events touch the registration of one section name, and at least one of them creates it. */
  ghost predicate Interferes(w: World, a: Event, b: Event) {
    Sees(w, a, b) || Sees(w, b, a) || (RegisteredBy(w, a).Some? && RegisteredBy(w, b) == RegisteredBy(w, a))
  }

  lemma OpenSees(p: WinProc, s: Shared, s': Shared, name: CString, h: Handle)
    requires Nameable(name) && name.bytes in s'.named && !SectionOpen(p, s, name, h).dangling
    requires name.bytes in s.named ==> name.bytes in s'.freed
    requires h in p.sections ==> p.sections[h] != s'.named[name.bytes]
    ensures var q, q' := SectionOpen(p, s, name, h), SectionOpen(p, s', name, h);
            q'.sections != q.sections || q'.dangling != q.dangling
  {
    if name.bytes !in s'.freed {
      assert SectionOpen(p, s', name, h).sections[h] == s'.named[name.bytes];
    }
  }

  /** Process b does something else after a than before, where it looks at what a registers. */
  lemma CreationIsSeen(w: World, a: Event, b: Event)
    requires a.ctx != b.ctx && Coherent(w) && Defined(Step(w, b)) && Sees(w, a, b)
    ensures var p := Get(w, b.ctx);
            ProcAfter(p, SharedAfter(w.shared, Get(w, a.ctx), a), b) != ProcAfter(p, w.shared, b)
  {
    hide FileOpen, FileClose, MappingCreate, MappingDelete, EnterStep;
    var p, s, s' := Get(w, b.ctx), w.shared, SharedAfter(w.shared, Get(w, a.ctx), a);
    var id, n := Id(a.ctx, Get(w, a.ctx).clock), RegisteredBy(w, a).value;
    assert s'.named == s.named[n := id] && !Old(w, id);
    assert !ProcAfter(p, s, b).dangling by {
      assert Get(Step(w, b), b.ctx) == ProcAfter(p, s, b);
    }
    if OpensName(w, b, n) {
      var r := p.syscalls[b.sp];
      var hd := ReadOut(b, r.phandle);
      OpenSees(p, s, s', r.name, hd);
    } else {
      assert s.named[n] in s.objects && s.named[n] !in s'.objects;
      assert ProcAfter(p, s', b).dangling;
    }
  }

  /** Process b does the same before and after a, where it does not look at what a registers. */
  lemma CreationIsUnseen(w: World, a: Event, b: Event)
    requires a.ctx != b.ctx && Coherent(w) && !Sees(w, a, b)
    requires RegisteredBy(w, a).None? || RegisteredBy(w, b) != RegisteredBy(w, a)
    ensures var p := Get(w, b.ctx);
            ProcAfter(p, SharedAfter(w.shared, Get(w, a.ctx), a), b) == ProcAfter(p, w.shared, b)
  {
    var p, s' := Get(w, b.ctx), SharedAfter(w.shared, Get(w, a.ctx), a);
    if Succeeds(w, b) {
      CreationLooksSame(w, a, b);
    }
    SameStep(p, w.shared, s', b);
  }

  lemma CreationLooksSame(w: World, a: Event, b: Event)
    requires a.ctx != b.ctx && Coherent(w) && !Sees(w, a, b) && Succeeds(w, b)
    requires RegisteredBy(w, a).None? || RegisteredBy(w, b) != RegisteredBy(w, a)
    ensures LooksSame(Get(w, b.ctx), w.shared, SharedAfter(w.shared, Get(w, a.ctx), a), b)
  {
    hide NamesLive;
    var p := Get(w, b.ctx);
    assert !Old(w, Id(a.ctx, Get(w, a.ctx).clock));
    assert p.syscalls[b.sp].MapSectionParams? ==> Borrows(w, b.ctx, b.sp);
  }

  /** The registrations of two events commute exactly when they are not for the same name. */
  lemma RegistrationsCommute(w: World, a: Event, b: Event)
    requires a.ctx != b.ctx && Coherent(w)
    ensures var pa, pb := Get(w, a.ctx), Get(w, b.ctx);
            SharedAfter(SharedAfter(w.shared, pa, a), pb, b) == SharedAfter(SharedAfter(w.shared, pb, b), pa, a) <==>
            RegisteredBy(w, a).None? || RegisteredBy(w, b) != RegisteredBy(w, a)
  {
    var pa, pb := Get(w, a.ctx), Get(w, b.ctx);
    if Creates(pa, a) && Creates(pb, b) {
      assert !Old(w, Id(a.ctx, pa.clock)) && !Old(w, Id(b.ctx, pb.clock));
      RegistersCommute(w.shared, Id(a.ctx, pa.clock), Id(b.ctx, pb.clock), pa.syscalls[a.sp].name,
                       pb.syscalls[b.sp].name,
                       pa.live[pa.syscalls[a.sp].file], pb.live[pb.syscalls[b.sp].file]);
    }
  }

  lemma RegistersCommute(s: Shared, i: Id, j: Id, m: CString, n: CString, f: CString, g: CString)
    requires i != j && i !in s.objects && j !in s.objects
    requires forall x :: x in s.named ==> s.named[x] in s.objects && s.objects[s.named[x]].name == Text(x)
    ensures Register(Register(s, i, m, f), j, n, g) == Register(Register(s, j, n, g), i, m, f) <==>
            !Nameable(m) || n != m
  {
    var s1, s2 := Register(Register(s, i, m, f), j, n, g), Register(Register(s, j, n, g), i, m, f);
    if Nameable(m) && n == m {
      assert s1.named[m.bytes] == j && s2.named[m.bytes] == i;
    } else {
      assert s1.named == s2.named;
      assert Replaced(Register(s, i, m, f), n) == Replaced(s, n) && Replaced(Register(s, j, n, g), m) == Replaced(s, m);
      MapsCommute(s.objects, i, j, Section(m, f), Section(n, g), Replaced(s, m), Replaced(s, n));
    }
  }

  lemma MapsCommute(t: map<Id, Section>, i: Id, j: Id, x: Section, y: Section, r: set<Id>, q: set<Id>)
    requires i != j && i !in q && j !in r
    ensures (t[i := x] - r)[j := y] - q == (t[j := y] - q)[i := x] - r
  {}

  /**
   Adjacent events of different processes, each of them defined, commute exactly when they do not touch the registration
   of one section name, or the section it stood for, with at least one of them creating it.
   */
  lemma EventsCommuteExactly(w: World, a: Event, b: Event)
    requires a.ctx != b.ctx && Coherent(w) && Defined(Step(w, a)) && Defined(Step(w, b))
    ensures Step(Step(w, a), b) == Step(Step(w, b), a) <==> !Interferes(w, a, b)
  {
    var pa, pb := Get(w, a.ctx), Get(w, b.ctx);
    var sa, sb := SharedAfter(w.shared, pa, a), SharedAfter(w.shared, pb, b);
    BothSteps(w, a, b);
    BothSteps(w, b, a);
    RegistrationsCommute(w, a, b);
    if RegisteredBy(w, a).None? || RegisteredBy(w, b) != RegisteredBy(w, a) {
      if Sees(w, a, b) {
        CreationIsSeen(w, a, b);
      } else {
        CreationIsUnseen(w, a, b);
      }
      if Sees(w, b, a) {
        CreationIsSeen(w, b, a);
      } else {
        CreationIsUnseen(w, b, a);
      }
      SameTables(w.procs, a.ctx, b.ctx, ProcAfter(pa, w.shared, a), ProcAfter(pa, sb, a),
                 ProcAfter(pb, sa, b), ProcAfter(pb, w.shared, b));
    }
  }

  /** What commutes stays defined. */
  lemma CommutingStaysDefined(w: World, a: Event, b: Event)
    requires a.ctx != b.ctx && Coherent(w) && Defined(Step(w, a)) && Defined(Step(w, b)) && !Interferes(w, a, b)
    ensures Defined(Step(Step(w, a), b))
  {
    BothSteps(w, a, b);
    CreationIsUnseen(w, a, b);
    forall c
      ensures var p := Get(Step(Step(w, a), b), c); !p.dangling && !p.clashed
    {
      assert Get(Step(Step(w, a), b), c) == if c == b.ctx then Get(Step(w, b), c) else Get(Step(w, a), c);
    }
  }

  lemma SameTables(t: map<Word64, WinProc>, c: Word64, d: Word64, p: WinProc, p': WinProc, q: WinProc, q': WinProc)
    requires c != d
    ensures t[c := p][d := q] == t[d := q'][c := p'] <==> p == p' && q == q'
  {
    assert t[c := p][d := q][c] == p && t[c := p][d := q][d] == q;
    assert t[d := q'][c := p'][c] == p' && t[d := q'][c := p'][d] == q';
    if p == p' && q == q' {
      assert t[c := p][d := q] == t[d := q'][c := p'];
    }
  }

  lemma BothSteps(w: World, a: Event, b: Event)
    requires a.ctx != b.ctx
    ensures var pa, pb := Get(w, a.ctx), Get(w, b.ctx);
            var sa := SharedAfter(w.shared, pa, a);
            Step(Step(w, a), b) ==
            World(w.procs[a.ctx := ProcAfter(pa, w.shared, a)][b.ctx := ProcAfter(pb, sa, b)], SharedAfter(sa, pb, b))
  {}

  /** Process 1 opened a file and is creating a section of it, process 2 is opening a section of the same name. */
  ghost const RACE: History :=
    [Enter(1, 7, OpenFile(0, Text([97]))), Exit(1, 7, Win10x64, 0, map[], None),
     Enter(1, 7, CreateSection(0, Text([88]), 0)), Enter(2, 7, OpenSection(0, Text([88])))]

  /** The two returns do not commute: process 2 has a handle only if it returns second. */
  lemma RaceExample()
    ensures var w := Run(RACE, 4);
            var a, b := Exit(1, 7, Win10x64, 0, map[], None), Exit(2, 7, Win10x64, 0, map[], None);
            && Interferes(w, a, b) && Step(Step(w, a), b) != Step(Step(w, b), a)
            && 0 in Get(Step(Step(w, a), b), 2).sections && 0 !in Get(Step(Step(w, b), a), 2).sections
  {
    hide FileOpen, FileClose, MappingCreate, MappingDelete, EnterParams;
    var w := RaceState();
    var a, b := Exit(1, 7, Win10x64, 0, map[], None), Exit(2, 7, Win10x64, 0, map[], None);
    var v, u := Step(w, a), Step(w, b);
    assert v.shared.named == map[[88] := Id(1, 3)] && v.shared.freed == {} && Get(v, 2) == Get(w, 2);
    assert Get(u, 2).sections == map[];
    assert Get(Step(u, a), 2) == Get(u, 2);
    assert 0 in Get(Step(v, b), 2).sections;
  }

  lemma RaceState() returns (w: World)
    ensures w == Run(RACE, 4) && w.shared == START.shared
    ensures Get(w, 1) == NEW_PROCESS.(clock := 3, live := map[1 := Text([97])], files := map[0 := 1],
                                      syscalls := map[7 := SectionParams(0, Text([88]), 1)])
    ensures Get(w, 2) == NEW_PROCESS.(clock := 1, syscalls := map[7 := OpenSectionParams(0, Text([88]))])
  {
    CallReturns(RACE, 0, FileParams(0, Text([97])));
    RunContinues(RACE, 2);
    RunContinues(RACE, 3);
    w := Run(RACE, 4);
  }

  // ----- one process among all -----

  /** The events of process c among the first n. */
  ghost function Only(h: History, n: nat, c: Word64): History
    requires n <= |h|
  {
    if n == 0 then [] else if h[n - 1].ctx == c then Only(h, n - 1, c) + [h[n - 1]] else Only(h, n - 1, c)
  }

  /** A name that only process c may create, or one that it may not. */
  predicate Allowed(name: CString, own: bool, names: set<seq<Byte>>) {
    Nameable(name) ==> (name.bytes in names <==> own)
  }

  /** Process c creates and opens only sections with these names, and no other process creates any of them. */
  ghost predicate KeepsApart(e: Event, c: Word64, names: set<seq<Byte>>) {
    e.Enter? ==>
      match e.request
      case CreateSection(_, name, _) => Allowed(name, e.ctx == c, names)
      case OpenSection(_, name) => e.ctx == c ==> Allowed(name, true, names)
      case _ => true
  }

  /** What the record may do, given that process c keeps to its names. */
  ghost predicate RecordApart(r: Params, own: bool, c: Word64, names: set<seq<Byte>>) {
    match r
    case SectionParams(_, name, _) => Allowed(name, own, names)
    case OpenSectionParams(_, name) => own ==> Allowed(name, true, names)
    case MapSectionParams(id, _, _) => own ==> id.ctx == c
    case _ => true
  }

  ghost predicate RecordsApart(p: WinProc, own: bool, c: Word64, names: set<seq<Byte>>) {
    forall sp :: sp in p.syscalls ==> RecordApart(p.syscalls[sp], own, c, names)
  }

  /** Process c refers to its own sections only, and its names are registered for its own sections only. */
  ghost predicate Confined(w: World, c: Word64, names: set<seq<Byte>>) {
    && (forall d :: RecordsApart(Get(w, d), d == c, c, names))
    && (forall h :: h in Get(w, c).sections ==> Get(w, c).sections[h].ctx == c)
    && (forall n :: n in w.shared.named ==> (w.shared.named[n].ctx == c <==> n in names))
  }

  lemma RecordsStayApart(w: World, e: Event, c: Word64, names: set<seq<Byte>>)
    requires Confined(w, c, names) && KeepsApart(e, c, names)
    ensures forall d :: RecordsApart(Get(Step(w, e), d), d == c, c, names)
  {
    var p := Get(w, e.ctx);
    assert RecordsApart(p, e.ctx == c, c, names);
    if e.Exit? && e.sp in p.syscalls {
      FinishSections(p, w.shared, p.syscalls[e.sp], e);
    }
    forall d
      ensures RecordsApart(Get(Step(w, e), d), d == c, c, names)
    {
      if d != e.ctx {
        assert Get(Step(w, e), d) == Get(w, d);
      }
    }
  }

  lemma SectionsStayApart(w: World, e: Event, c: Word64, names: set<seq<Byte>>)
    requires Confined(w, c, names)
    ensures var t := Get(Step(w, e), c).sections; forall h :: h in t ==> t[h].ctx == c
  {
    var p := Get(w, e.ctx);
    assert RecordsApart(p, e.ctx == c, c, names);
    if e.ctx == c && e.Exit? && e.sp in p.syscalls {
      FinishSections(p, w.shared, p.syscalls[e.sp], e);
    }
  }

  lemma NamesStayApart(w: World, e: Event, c: Word64, names: set<seq<Byte>>)
    requires Confined(w, c, names)
    ensures var t := Step(w, e).shared.named; forall n :: n in t ==> (t[n].ctx == c <==> n in names)
  {
    assert RecordsApart(Get(w, e.ctx), e.ctx == c, c, names);
  }

  lemma {:induction false} RunConfined(h: History, n: nat, c: Word64, names: set<seq<Byte>>)
    requires n <= |h| && forall k :: 0 <= k < |h| ==> KeepsApart(h[k], c, names)
    ensures Confined(Run(h, n), c, names)
    decreases n
  {
    if n > 0 {
      RunConfined(h, n - 1, c, names);
      RecordsStayApart(Run(h, n - 1), h[n - 1], c, names);
      SectionsStayApart(Run(h, n - 1), h[n - 1], c, names);
      NamesStayApart(Run(h, n - 1), h[n - 1], c, names);
    }
  }

  /** Process c sees the same world. */
  ghost predicate SameFor(w: World, v: World, c: Word64, names: set<seq<Byte>>) {
    && Get(w, c) == Get(v, c)
    && (forall n :: n in names ==> (n in w.shared.named <==> n in v.shared.named))
    && (forall n :: n in names && n in w.shared.named ==> w.shared.named[n] == v.shared.named[n])
    && (forall n :: n in names ==> (n in w.shared.freed <==> n in v.shared.freed))
    && (forall id: Id :: id.ctx == c ==> (id in w.shared.objects <==> id in v.shared.objects))
    && (forall id: Id :: id.ctx == c && id in w.shared.objects ==> w.shared.objects[id] == v.shared.objects[id])
  }

  lemma OwnProcAfter(w: World, v: World, e: Event, c: Word64, names: set<seq<Byte>>)
    requires e.ctx == c && SameFor(w, v, c, names) && Confined(w, c, names)
    ensures ProcAfter(Get(w, c), w.shared, e) == ProcAfter(Get(v, c), v.shared, e)
  {
    var p := Get(w, c);
    assert RecordsApart(p, true, c, names);
    if e.Exit? && e.sp in p.syscalls {
      assert RecordApart(p.syscalls[e.sp], true, c, names);
    }
    SameStep(p, w.shared, v.shared, e);
  }

  lemma OwnShared(w: World, v: World, e: Event, c: Word64, names: set<seq<Byte>>)
    requires e.ctx == c && SameFor(w, v, c, names) && Confined(w, c, names)
    ensures SameFor(World(v.procs, SharedAfter(w.shared, Get(w, c), e)),
                    World(v.procs, SharedAfter(v.shared, Get(v, c), e)), c, names)
  {
    assert RecordsApart(Get(w, c), true, c, names);
  }

  lemma OwnStep(w: World, v: World, e: Event, c: Word64, names: set<seq<Byte>>)
    requires e.ctx == c && SameFor(w, v, c, names) && Confined(w, c, names)
    ensures SameFor(Step(w, e), Step(v, e), c, names)
  {
    OwnProcAfter(w, v, e, c, names);
    OwnShared(w, v, e, c, names);
  }

  lemma OtherStep(w: World, v: World, e: Event, c: Word64, names: set<seq<Byte>>)
    requires e.ctx != c && SameFor(w, v, c, names) && Confined(w, c, names)
    ensures SameFor(Step(w, e), v, c, names)
  {
    assert Get(Step(w, e), c) == Get(w, c);
    assert RecordsApart(Get(w, e.ctx), false, c, names);
  }

  lemma {:induction false} RunOfPrefix(h: History, e: Event, n: nat)
    requires n <= |h|
    ensures Run(h + [e], n) == Run(h, n)
    decreases n
  {
    if n > 0 {
      RunOfPrefix(h, e, n - 1);
    }
  }

  lemma SameAsItself(w: World, c: Word64, names: set<seq<Byte>>)
    ensures SameFor(w, w, c, names)
  {}

  lemma {:induction false} SameForOwnEvents(h: History, n: nat, c: Word64, names: set<seq<Byte>>)
    requires n <= |h| && forall k :: 0 <= k < |h| ==> KeepsApart(h[k], c, names)
    ensures SameFor(Run(h, n), Run(Only(h, n, c), |Only(h, n, c)|), c, names)
    decreases n
  {
    hide SameFor, Confined, KeepsApart, Step, Run;
    if n == 0 {
      RunStarts(h);
      RunStarts([]);
      SameAsItself(START, c, names);
    } else {
      var o, e := Only(h, n - 1, c), h[n - 1];
      RunContinues(h, n - 1);
      SameForOwnEvents(h, n - 1, c, names);
      RunConfined(h, n - 1, c, names);
      if e.ctx == c {
        RunOfPrefix(o, e, |o|);
        RunContinues(o + [e], |o|);
        OwnStep(Run(h, n - 1), Run(o, |o|), e, c, names);
        assert (o + [e])[|o|] == e;
      } else {
        OtherStep(Run(h, n - 1), Run(o, |o|), e, c, names);
      }
    }
  }

  /**
   Projection: as long as the run is defined, a process whose section names no other process creates is, after any
   interleaving, what its own events alone make it.
   */
  lemma Projection(h: History, n: nat, c: Word64, names: set<seq<Byte>>)
    requires n <= |h| && forall k :: 0 <= k < |h| ==> KeepsApart(h[k], c, names)
    requires Defined(Run(h, n))
    ensures Get(Run(h, n), c) == Get(Run(Only(h, n, c), |Only(h, n, c)|), c)
    ensures Defined(Run(Only(h, n, c), |Only(h, n, c)|))
  {
    SameForOwnEvents(h, n, c, names);
    OnlyOwn(h, n, c);
    OthersUntouched(Only(h, n, c), |Only(h, n, c)|, c);
  }

  lemma {:induction false} OnlyOwn(h: History, n: nat, c: Word64)
    requires n <= |h|
    ensures forall k :: 0 <= k < |Only(h, n, c)| ==> Only(h, n, c)[k].ctx == c
    decreases n
  {
    if n > 0 {
      OnlyOwn(h, n - 1, c);
    }
  }

  lemma {:induction false} OthersUntouched(h: History, n: nat, c: Word64)
    requires n <= |h| && forall k :: 0 <= k < |h| ==> h[k].ctx == c
    ensures forall d :: d != c ==> Get(Run(h, n), d) == NEW_PROCESS
    decreases n
  {
    if n > 0 {
      OthersUntouched(h, n - 1, c);
      var w, e := Run(h, n - 1), h[n - 1];
      assert e.ctx == c && forall d :: d != c ==> Get(Step(w, e), d) == Get(w, d);
    }
  }
}
