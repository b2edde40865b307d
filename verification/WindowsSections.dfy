/**
 Files, named sections and views on Windows: section.c, syscall-win64.c and syscall-win32.c. The handle tables
 belong to a process, the table of named sections to all processes.

 As in LinuxProcess, a File or Section object is named by the event that allocated it: the number it has among the
 events of its process, and for a Section, which other processes can reach, the process too.
 */
module WindowsSections {
  import opened Words
  import opened GuestMemory
  import opened SearchTree
  import opened MappingStore

  type Handle = Word64

  datatype Os = WinXP | Win10x64

  /** What an enter handler hands to sc_insert; calls it does not follow leave nothing. Handles are already masked. */
  datatype Request =
    | CloseHandle(handle: Handle)
    | OpenFile(phandle: Word64, path: CString)
    | CreateSection(phandle: Word64, name: CString, hfile: Handle)
    | OpenSection(phandle: Word64, name: CString)
    | MapView(hsection: Handle, pbase: Word64, psize: Word64)
    | UnmapView(base: Word64)
    | Duplicate(handle: Handle, phandle: Word64)
    | QueryProcess(info: Word64)
    | Untracked

  datatype Id = Id(ctx: Word64, n: nat)

  datatype Params =
    | CloseParams(handle: Handle)
    | FileParams(phandle: Word64, name: CString)
    | SectionParams(phandle: Word64, name: CString, file: nat)
    | OpenSectionParams(phandle: Word64, name: CString)
    | MapSectionParams(section: Id, pbase: Word64, psize: Word64)
    | UnmapParams(base: Word64)
    | DuplicateParams(file: nat, phandle: Word64)
    | QueryParams(info: Word64)

  datatype Section = Section(name: CString, filename: CString)

  datatype WinProc = WinProc(
    clock: nat,
    /** Live File objects, by their file name. */
    live: map<nat, CString>,
    files: map<Handle, nat>,
    sections: map<Handle, Id>,
    syscalls: map<Word64, Params>,
    mappings: Table,
    pid: Word64,
    /** A destroyed File or Section, or the freed key of a name, was used: not defined from here on. */
    dangling: bool,
    /** A mapping took the (base, size) of another one, which g_tree_insert destroyed: not defined either. */
    clashed: bool)

  const NEW_PROCESS := WinProc(0, map[], map[], map[], map[], map[], 0, false, false)

  /**
   The Section objects and the global table of named sections. The key of an entry is the name of the section it was
   made for; `freed` are the names whose key was freed, with that section, when another one took the entry over.
   */
  datatype Shared = Shared(objects: map<Id, Section>, named: map<seq<Byte>, Id>, freed: set<seq<Byte>>)

  datatype World = World(procs: map<Word64, WinProc>, shared: Shared)

  const START := World(map[], Shared(map[], map[], {}))

  datatype Event =
    | Enter(ctx: Word64, sp: Word64, request: Request)
    | /** `mem` is guest memory at the return; `found` is what mapping_find returns should a mapping be deleted. */
      Exit(ctx: Word64, sp: Word64, os: Os, ret: Word64, mem: Memory, found: Option<CString>)

  function Get(w: World, c: Word64): WinProc {
    if c in w.procs then w.procs[c] else NEW_PROCESS
  }

  /** vmi_read_qword, vmi_read_dword: 0 when the guest word is not readable. */
  function ReadOut(e: Event, a: Word64): Word64
    requires e.Exit?
  {
    match Read(e.mem, a, if e.os == WinXP then W32 else W64)
    case Some(v) => v
    case None => 0
  }

  /** When event e returns, the word of the guest's width at address a is v. */
  ghost predicate WordIs(e: Event, a: Word64, v: Word64) {
    && e.Exit?
    && (e.os == Win10x64 ==> WordAt(e.mem, a, W64, v))
    && (e.os == WinXP ==> WordAt(e.mem, a, W32, v))
  }

  /** Out-parameters are read whole: 8 bytes on Windows 10, 4 on XP, and 0 where one of them is not readable. */
  lemma OutParameter(e: Event, a: Word64, v: Word64)
    requires e.Exit?
    ensures WordIs(e, a, v) ==> ReadOut(e, a) == v
    ensures (exists i :: 0 <= i < 8 && (i < 4 || e.os == Win10x64) && Read1(e.mem, a, i).None?) ==> ReadOut(e, a) == 0
  {
    if WordIs(e, a, v) {
      ReadsBack(e.mem, a, if e.os == WinXP then W32 else W64, v);
    }
    ReadNeedsAllBytes(e.mem, a, if e.os == WinXP then W32 else W64);
  }

  // ----- what a process does to its own tables -----

  /** file_close and file_open: the replaced or removed File is destroyed. */
  function FileClose(p: WinProc, h: Handle): WinProc {
    if h in p.files then p.(files := p.files - {h}, live := p.live - {p.files[h]}) else p
  }

  function FileOpen(p: WinProc, name: CString, h: Handle): WinProc {
    var q := FileClose(p, h);
    q.(files := q.files[h := p.clock], live := q.live[p.clock := name])
  }

  predicate Nameable(name: CString) {
    name.Text? && name.bytes != []
  }

  /** A lookup of this name compares it with a freed key. */
  predicate ReadsFreed(s: Shared, name: CString) {
    Nameable(name) && name.bytes in s.freed
  }

  /** section_open */
  function SectionOpen(p: WinProc, s: Shared, name: CString, h: Handle): WinProc {
    if ReadsFreed(s, name) then p.(dangling := true)
    else if Nameable(name) && name.bytes in s.named then p.(sections := p.sections[h := s.named[name.bytes]]) else p
  }

  /** mapping_create: a mapping of another file with the same (base, size) is destroyed. */
  function MappingCreate(p: WinProc, f: CString, base: Word64, size: Word64): WinProc {
    var t := Created(p.mappings, f, base, size);
    p.(mappings := map g | g in t && (g == f || t[g] != t[f]) :: t[g], clashed := p.clashed || !Unshared(t, f))
  }

  /** mapping_delete at addr, where mapping_find answers `found`. */
  function MappingDelete(p: WinProc, addr: Word64, found: Option<CString>): WinProc {
    match found
    case None => p
    case Some(f) => if Covers(p.mappings, addr, f) then p.(mappings := p.mappings - {f}) else p
  }

  /** The enter handlers. */
  function EnterParams(p: WinProc, r: Request): Option<Params> {
    match r
    case CloseHandle(h) => Some(CloseParams(h))
    case OpenFile(phandle, path) => Some(FileParams(phandle, path))
    case CreateSection(phandle, name, hfile) =>
      if hfile in p.files then Some(SectionParams(phandle, name, p.files[hfile])) else None
    case OpenSection(phandle, name) => Some(OpenSectionParams(phandle, name))
    case MapView(h, pbase, psize) =>
      if h in p.sections then Some(MapSectionParams(p.sections[h], pbase, psize)) else None
    case UnmapView(base) => Some(UnmapParams(base))
    case Duplicate(h, phandle) => if h in p.files then Some(DuplicateParams(p.files[h], phandle)) else None
    case QueryProcess(info) => Some(QueryParams(info))
    case Untracked => None
  }

  function EnterStep(p: WinProc, e: Event): WinProc
    requires e.Enter?
  {
    match EnterParams(p, e.request)
    case None => p
    case Some(params) => p.(syscalls := p.syscalls[e.sp := params])
  }

  /** The exit handlers: nothing but the record is touched unless the call succeeded. */
  function Finish(p: WinProc, s: Shared, params: Params, e: Event): WinProc
    requires e.Exit?
  {
    if e.ret != 0 then p
    else match params
      case CloseParams(h) => var q := FileClose(p, h); q.(sections := q.sections - {h})
      case FileParams(phandle, name) => FileOpen(p, name, ReadOut(e, phandle))
      case SectionParams(phandle, name, file) =>
        if file in p.live then
          p.(sections := p.sections[ReadOut(e, phandle) := Id(e.ctx, p.clock)],
             dangling := p.dangling || ReadsFreed(s, name))
        else p.(dangling := true)
      case OpenSectionParams(phandle, name) => SectionOpen(p, s, name, ReadOut(e, phandle))
      case MapSectionParams(id, pbase, psize) =>
        if id in s.objects then MappingCreate(p, s.objects[id].filename, ReadOut(e, pbase), ReadOut(e, psize))
        else p.(dangling := true)
      case UnmapParams(base) => MappingDelete(p, base, e.found)
      case DuplicateParams(file, phandle) =>
        if file in p.live then FileOpen(p, p.live[file], ReadOut(e, phandle)) else p.(dangling := true)
      case QueryParams(info) =>
        var q := p.(pid := ReadOut(e, Add64(info, if e.os == WinXP then 16 else 32)));
        // the XP handler has no break here and goes on into NtUnmapViewOfSection, with its own parameter
        if e.os == WinXP then MappingDelete(q, info, e.found) else q
  }

  function ExitStep(p: WinProc, s: Shared, e: Event): WinProc
    requires e.Exit?
  {
    if e.sp !in p.syscalls then p
    else Finish(p, s, p.syscalls[e.sp], e).(syscalls := p.syscalls - {e.sp})
  }

  // ----- what an event does to the sections of all processes -----

  /** Event e completes the creation of a section, of a File that is still open. */
  predicate Creates(p: WinProc, e: Event) {
    && e.Exit? && e.ret == 0 && e.sp in p.syscalls && p.syscalls[e.sp].SectionParams?
    && p.syscalls[e.sp].file in p.live
  }

  /** The section that a new one of this name destroys. */
  function Replaced(s: Shared, name: CString): set<Id> {
    if Nameable(name) && name.bytes in s.named then {s.named[name.bytes]} else {}
  }

  /** The part of section_create that all processes see. */
  function Register(s: Shared, id: Id, name: CString, filename: CString): Shared {
    Shared(s.objects[id := Section(name, filename)] - Replaced(s, name),
           if Nameable(name) then s.named[name.bytes := id] else s.named,
           if Replaced(s, name) != {} then s.freed + {name.bytes} else s.freed)
  }

  function SharedAfter(s: Shared, p: WinProc, e: Event): Shared {
    if Creates(p, e) then Register(s, Id(e.ctx, p.clock), p.syscalls[e.sp].name, p.live[p.syscalls[e.sp].file]) else s
  }

  function ProcAfter(p: WinProc, s: Shared, e: Event): WinProc {
    var q := if e.Enter? then EnterStep(p, e) else ExitStep(p, s, e);
    q.(clock := p.clock + 1)
  }

  function Step(w: World, e: Event): World {
    var p := Get(w, e.ctx);
    World(w.procs[e.ctx := ProcAfter(p, w.shared, e)], SharedAfter(w.shared, p, e))
  }

  type History = seq<Event>

  function Run(h: History, n: nat): World
    requires n <= |h|
  {
    if n == 0 then START else Step(Run(h, n - 1), h[n - 1])
  }

  lemma RunStarts(h: History)
    ensures Run(h, 0) == START
  {}

  lemma RunContinues(h: History, n: nat)
    requires n < |h|
    ensures Run(h, n + 1) == Step(Run(h, n), h[n])
  {}

  // ----- invariants -----

  /** The object was allocated by an earlier event. */
  ghost predicate Old(w: World, id: Id) {
    id.n < Get(w, id.ctx).clock
  }

  /** All references are to objects allocated earlier, and each name is registered for a live section of that name. */
  ghost predicate Coherent(w: World) {
    && (forall id :: id in w.shared.objects ==> Old(w, id))
    && NamesLive(w.shared)
    && (forall c, h :: h in Get(w, c).sections ==> Old(w, Get(w, c).sections[h]))
    && (forall c, sp :: Borrows(w, c, sp) ==> Old(w, Get(w, c).syscalls[sp].section))
  }

  /** The record that process c has pending at sp borrows a Section. */
  ghost predicate Borrows(w: World, c: Word64, sp: Word64) {
    sp in Get(w, c).syscalls && Get(w, c).syscalls[sp].MapSectionParams?
  }

  lemma OldStays(w: World, e: Event, id: Id)
    requires Old(w, id)
    ensures Old(Step(w, e), id)
  {}

  /** The tables that no operation on files, sections or mappings touches, and the flags that none clears. */
  ghost predicate Frame(p: WinProc, q: WinProc) {
    q.syscalls == p.syscalls && q.clock == p.clock && (p.dangling ==> q.dangling) && (p.clashed ==> q.clashed)
  }

  lemma FilesFrame(p: WinProc, name: CString, h: Handle)
    ensures var q := FileClose(p, h); Frame(p, q) && q.sections == p.sections && q.dangling == p.dangling
    ensures var q := FileOpen(p, name, h); Frame(p, q) && q.sections == p.sections && q.dangling == p.dangling
  {}

  lemma OpenFrame(p: WinProc, s: Shared, name: CString, h: Handle)
    ensures var q := SectionOpen(p, s, name, h);
            && Frame(p, q)
            && (q.dangling <==> p.dangling || ReadsFreed(s, name))
            && (q.sections == p.sections
                || (Nameable(name) && name.bytes in s.named && q.sections == p.sections[h := s.named[name.bytes]]))
  {}

  lemma CreateKeeps(p: WinProc, f: CString, base: Word64, size: Word64)
    ensures var q := MappingCreate(p, f, base, size);
            Frame(p, q) && q.sections == p.sections && q.dangling == p.dangling
  {}

  lemma DeleteKeeps(p: WinProc, addr: Word64, found: Option<CString>)
    ensures var q := MappingDelete(p, addr, found);
            Frame(p, q) && q.sections == p.sections && q.dangling == p.dangling
  {}

  /** An exit handler uses something that is freed: a destroyed File or Section, or the key of a name. */
  predicate Dangles(p: WinProc, s: Shared, params: Params) {
    match params
    case SectionParams(_, name, file) => file !in p.live || ReadsFreed(s, name)
    case OpenSectionParams(_, name) => ReadsFreed(s, name)
    case MapSectionParams(id, _, _) => id !in s.objects
    case DuplicateParams(file, _) => file !in p.live
    case _ => false
  }

  /** Which section handles one exit changes in its own process, and when it dangles. */
  lemma FinishSections(p: WinProc, s: Shared, params: Params, e: Event)
    requires e.Exit?
    ensures var q := Finish(p, s, params, e);
            && Frame(p, q)
            && (q.dangling <==> p.dangling || (e.ret == 0 && Dangles(p, s, params)))
            && q.sections ==
               if e.ret != 0 then p.sections
               else match params
                 case CloseParams(h) => p.sections - {h}
                 case SectionParams(phandle, _, file) =>
                   if file in p.live then p.sections[ReadOut(e, phandle) := Id(e.ctx, p.clock)] else p.sections
                 case OpenSectionParams(phandle, name) => SectionOpen(p, s, name, ReadOut(e, phandle)).sections
                 case _ => p.sections
  {
    hide FileClose, FileOpen, SectionOpen, MappingCreate, MappingDelete, ReadOut, ReadsFreed;
    match params
    case CloseParams(h) => FilesFrame(p, Null, h);
    case FileParams(phandle, name) => FilesFrame(p, name, ReadOut(e, phandle));
    case OpenSectionParams(phandle, name) => OpenFrame(p, s, name, ReadOut(e, phandle));
    case MapSectionParams(id, pbase, psize) =>
      if id in s.objects {
        CreateKeeps(p, s.objects[id].filename, ReadOut(e, pbase), ReadOut(e, psize));
      }
    case UnmapParams(base) => DeleteKeeps(p, base, e.found);
    case DuplicateParams(file, phandle) =>
      FilesFrame(p, if file in p.live then p.live[file] else Null, ReadOut(e, phandle));
    case QueryParams(info) =>
      DeleteKeeps(p.(pid := ReadOut(e, Add64(info, if e.os == WinXP then 16 else 32))), info, e.found);
    case _ =>
  }

  /** The table of names refers to live sections of those names. */
  ghost predicate NamesLive(s: Shared) {
    && (forall n :: n in s.named ==> s.named[n] in s.objects && s.objects[s.named[n]].name == Text(n))
    && s.freed <= s.named.Keys
  }

  lemma RegisterCoherent(s: Shared, id: Id, name: CString, filename: CString)
    requires NamesLive(s) && id !in s.objects
    ensures NamesLive(Register(s, id, name, filename))
  {}

  lemma SharedCoherent(w: World, e: Event)
    requires Coherent(w)
    ensures NamesLive(Step(w, e).shared) && forall id :: id in Step(w, e).shared.objects ==> Old(Step(w, e), id)
  {
    hide Register;
    var p := Get(w, e.ctx);
    if Creates(p, e) {
      assert !Old(w, Id(e.ctx, p.clock));
      RegisterCoherent(w.shared, Id(e.ctx, p.clock), p.syscalls[e.sp].name, p.live[p.syscalls[e.sp].file]);
    }
    forall id | id in Step(w, e).shared.objects
      ensures Old(Step(w, e), id)
    {
      ObjectsOld(w, e, id);
    }
  }

  lemma ObjectsOld(w: World, e: Event, id: Id)
    requires Coherent(w) && id in Step(w, e).shared.objects
    ensures Old(Step(w, e), id)
  {
    hide NamesLive, EnterStep, ExitStep;
    if id in w.shared.objects {
      OldStays(w, e, id);
    }
  }

  lemma HandlesCoherent(w: World, e: Event, c: Word64, h: Handle)
    requires Coherent(w) && h in Get(Step(w, e), c).sections
    ensures Old(Step(w, e), Get(Step(w, e), c).sections[h])
  {
    hide Finish, SectionOpen, ReadOut, SharedAfter;
    var p := Get(w, e.ctx);
    if h in Get(w, c).sections {
      OldStays(w, e, Get(w, c).sections[h]);
    }
    if c == e.ctx && e.Exit? && e.sp in p.syscalls {
      FinishSections(p, w.shared, p.syscalls[e.sp], e);
      if p.syscalls[e.sp].OpenSectionParams? {
        var name := p.syscalls[e.sp].name;
        OpenFrame(p, w.shared, name, ReadOut(e, p.syscalls[e.sp].phandle));
        if Nameable(name) && name.bytes in w.shared.named {
          OldStays(w, e, w.shared.named[name.bytes]);
        }
      }
    }
  }

  /** A record that borrows a section was there before, or is the one this event makes. */
  lemma RecordOrigin(p: WinProc, s: Shared, e: Event, sp: Word64)
    ensures var t := ProcAfter(p, s, e).syscalls;
            sp in t && t[sp].MapSectionParams? && !(sp in p.syscalls && p.syscalls[sp] == t[sp]) ==>
              && e.Enter? && e.request.MapView? && e.request.hsection in p.sections
              && t[sp].section == p.sections[e.request.hsection]
  {
    hide Finish;
    if e.Exit? && e.sp in p.syscalls {
      FinishSections(p, s, p.syscalls[e.sp], e);
    }
  }

  lemma RecordsCoherent(w: World, e: Event, c: Word64, sp: Word64)
    requires Coherent(w) && Borrows(Step(w, e), c, sp)
    ensures Old(Step(w, e), Get(Step(w, e), c).syscalls[sp].section)
  {
    hide ProcAfter, SharedAfter;
    var p := Get(w, e.ctx);
    if Borrows(w, c, sp) {
      OldStays(w, e, Get(w, c).syscalls[sp].section);
    }
    if c == e.ctx {
      RecordOrigin(p, w.shared, e, sp);
      if e.Enter? && e.request.MapView? && e.request.hsection in p.sections {
        OldStays(w, e, p.sections[e.request.hsection]);
      }
    }
  }

  lemma {:induction false} RunCoherent(h: History, n: nat)
    requires n <= |h|
    ensures Coherent(Run(h, n))
    decreases n
  {
    if n > 0 {
      var w, e := Run(h, n - 1), h[n - 1];
      RunCoherent(h, n - 1);
      SharedCoherent(w, e);
      forall c, hd | hd in Get(Step(w, e), c).sections
        ensures Old(Step(w, e), Get(Step(w, e), c).sections[hd])
      {
        HandlesCoherent(w, e, c, hd);
      }
      forall c, sp | Borrows(Step(w, e), c, sp)
        ensures Old(Step(w, e), Get(Step(w, e), c).syscalls[sp].section)
      {
        RecordsCoherent(w, e, c, sp);
      }
    }
  }

  /** No process has used a destroyed object or a freed name. */
  ghost predicate Defined(w: World) {
    forall c :: !Get(w, c).dangling && !Get(w, c).clashed
  }

  /** The two states of the sections look the same to what process p completes with e. */
  ghost predicate LooksSame(p: WinProc, s: Shared, s': Shared, e: Event) {
    e.Exit? && e.sp in p.syscalls ==>
      match p.syscalls[e.sp]
      case SectionParams(_, name, file) => file in p.live ==> ReadsFreed(s', name) == ReadsFreed(s, name)
      case OpenSectionParams(_, name) => Nameable(name) ==> SameEntry(s, s', name.bytes)
      case MapSectionParams(id, _, _) =>
        && (id in s'.objects) == (id in s.objects)
        && (id in s.objects ==> s'.objects[id] == s.objects[id])
      case _ => true
  }

  predicate SameEntry(s: Shared, s': Shared, n: seq<Byte>) {
    && (n in s'.freed) == (n in s.freed) && (n in s'.named) == (n in s.named)
    && (n in s.named ==> s'.named[n] == s.named[n])
  }

  lemma SameStep(p: WinProc, s: Shared, s': Shared, e: Event)
    requires e.Exit? && e.ret == 0 ==> LooksSame(p, s, s', e)
    ensures ProcAfter(p, s, e) == ProcAfter(p, s', e)
  {
    hide FileClose, FileOpen, MappingCreate, MappingDelete, ReadOut, SectionOpen;
    if e.Exit? && e.sp in p.syscalls && p.syscalls[e.sp].OpenSectionParams? && e.ret == 0 {
      var r := p.syscalls[e.sp];
      SameOpen(p, s, s', r.name, ReadOut(e, r.phandle));
    }
  }

  lemma SameOpen(p: WinProc, s: Shared, s': Shared, name: CString, h: Handle)
    requires Nameable(name) ==> SameEntry(s, s', name.bytes)
    ensures SectionOpen(p, s, name, h) == SectionOpen(p, s', name, h)
  {}

  /** What is undefined stays undefined. */
  lemma UndefinedStays(w: World, e: Event, c: Word64)
    ensures Get(w, c).dangling ==> Get(Step(w, e), c).dangling
    ensures Get(w, c).clashed ==> Get(Step(w, e), c).clashed
  {
    hide Finish;
    var p := Get(w, e.ctx);
    if e.Exit? && e.sp in p.syscalls {
      FinishSections(p, w.shared, p.syscalls[e.sp], e);
    }
  }

  // ----- deletion -----

  /** Event e successfully completes the pending request `params` of its process. */
  ghost predicate Completes(w: World, e: Event, params: Params) {
    e.Exit? && e.ret == 0 && e.sp in Get(w, e.ctx).syscalls && Get(w, e.ctx).syscalls[e.sp] == params
  }

  /** The event's `found` is one that mapping_find may answer for addr. */
  ghost predicate Answered(w: World, e: Event, addr: Word64) {
    e.Exit? && Answer(Get(w, e.ctx).mappings, addr, e.found)
  }

  /** The interval of f contains the address: its base is inside, its end is not. */
  ghost predicate LiesAt(t: Table, addr: Word64, f: CString) {
    f in t && t[f].base <= addr < (t[f].base + t[f].size) % TWO_TO_64
  }

  ghost predicate NothingAt(t: Table, addr: Word64) {
    forall f :: !LiesAt(t, addr, f)
  }

  /** A deletion leaves the mappings alone exactly when none covers the address; otherwise one that does is gone. */
  lemma DeletesExactly(p: WinProc, addr: Word64, found: Option<CString>)
    requires Answer(p.mappings, addr, found) && EndsInOrder(p.mappings)
    ensures var q := MappingDelete(p, addr, found);
            && (q.mappings == p.mappings <==> NothingAt(p.mappings, addr))
            && (q.mappings != p.mappings ==> exists f :: LiesAt(p.mappings, addr, f) && q.mappings == p.mappings - {f})
  {
    AnswerByAddress(p.mappings, addr, found);
    if found.Some? {
      assert LiesAt(p.mappings, addr, found.value);
      assert found.value !in MappingDelete(p, addr, found).mappings;
    }
  }

  /** NtUnmapViewOfSection */
  lemma UnmapDeletesExactly(w: World, e: Event, base: Word64)
    requires Completes(w, e, UnmapParams(base)) && Answered(w, e, base) && EndsInOrder(Get(w, e.ctx).mappings)
    ensures var t, t' := Get(w, e.ctx).mappings, Get(Step(w, e), e.ctx).mappings;
            && (t' == t <==> NothingAt(t, base))
            && (t' != t ==> exists f :: LiesAt(t, base, f) && t' == t - {f})
  {
    DeletesExactly(Get(w, e.ctx), base, e.found);
  }

  /** An unmap names the base of a view: on separated intervals that view disappears, and no other. */
  lemma UnmapAtBase(w: World, e: Event, f: CString)
    requires f in Get(w, e.ctx).mappings && Separated(Get(w, e.ctx).mappings)
    requires var base := Get(w, e.ctx).mappings[f].base; Completes(w, e, UnmapParams(base)) && Answered(w, e, base)
    ensures Get(Step(w, e), e.ctx).mappings == Get(w, e.ctx).mappings - {f}
  {
    var t := Get(w, e.ctx).mappings;
    var base := t[f].base;
    AnswerIsOwner(t, base, e.found);
    OwnerByAddress(t, base);
    SeparatedIsUnambiguous(t);
    UnmapDone(w, e, base);
    assert Covers(t, base, f);
  }

  lemma UnmapDone(w: World, e: Event, base: Word64)
    requires Completes(w, e, UnmapParams(base))
    ensures Get(Step(w, e), e.ctx).mappings == MappingDelete(Get(w, e.ctx), base, e.found).mappings
  {
    hide SharedAfter;
  }

  /**
   A successful process query leaves the mappings alone exactly when it runs on Windows 10 or its buffer lies in no
   mapping: the XP handler runs on into the unmap case and deletes a mapping that contains the buffer.
   */
  lemma QueryKeepsMappingsExactly(w: World, e: Event, info: Word64)
    requires Completes(w, e, QueryParams(info)) && Answered(w, e, info) && EndsInOrder(Get(w, e.ctx).mappings)
    ensures var t, t' := Get(w, e.ctx).mappings, Get(Step(w, e), e.ctx).mappings;
            && (t' == t <==> e.os == Win10x64 || NothingAt(t, info))
            && (t' != t ==> exists f :: LiesAt(t, info, f) && t' == t - {f})
  {
    hide Step, MappingDelete;
    var p := Get(w, e.ctx);
    QueryDone(w, e, info);
    DeletesExactly(p, info, e.found);
  }

  lemma QueryDone(w: World, e: Event, info: Word64)
    requires Completes(w, e, QueryParams(info))
    ensures var p := Get(w, e.ctx);
            Get(Step(w, e), e.ctx).mappings
            == if e.os == WinXP then MappingDelete(p, info, e.found).mappings else p.mappings
  {
    hide SharedAfter, ReadOut;
  }

  // ----- runs of one process, call by call -----

  /** Events k and k + 1 are the enter and the successful exit of one call, which records `params`. */
  ghost predicate CallAt(h: History, k: nat, params: Params) {
    && k + 1 < |h| && h[k].Enter? && h[k + 1].Exit? && h[k + 1].ret == 0
    && h[k + 1].ctx == h[k].ctx && h[k + 1].sp == h[k].sp
    && EnterParams(Get(Run(h, k), h[k].ctx), h[k].request) == Some(params)
  }

  /** The process in the middle of the call. */
  ghost function Called(p: WinProc, sp: Word64, params: Params): WinProc {
    p.(clock := p.clock + 1, syscalls := p.syscalls[sp := params])
  }

  lemma CallReturns(h: History, k: nat, params: Params)
    requires CallAt(h, k, params)
    ensures var w, c, e := Run(h, k), h[k].ctx, h[k + 1];
            var p := Called(Get(w, c), h[k].sp, params);
            var q := Finish(p, w.shared, params, e);
            && Get(Run(h, k + 1), c) == p && Run(h, k + 1).shared == w.shared
            && Get(Run(h, k + 2), c) == q.(clock := p.clock + 1, syscalls := p.syscalls - {h[k].sp})
            && Run(h, k + 2).shared == SharedAfter(w.shared, p, e)
  {
    var w, c, e := Run(h, k), h[k].ctx, h[k + 1];
    var p := Called(Get(w, c), h[k].sp, params);
    assert Run(h, k + 1) == Step(w, h[k]) == World(w.procs[c := p], w.shared);
    assert Run(h, k + 2) == Step(Run(h, k + 1), e);
    FinishSections(p, w.shared, params, e);
  }

  /** On XP: a file is opened, a section of it made, a view of 4096 bytes mapped at 4096, a query made into the view. */
  ghost const QUERY_INTO_VIEW: History :=
    var mem := map[4096 := 0, 4097 := 16, 4098 := 0, 4099 := 0];
    var done := Exit(1, 7, WinXP, 0, mem, None);
    [Enter(1, 7, OpenFile(0, Text([97]))), done, Enter(1, 7, CreateSection(0, Null, 0)), done,
     Enter(1, 7, MapView(0, 4096, 4096)), done,
     Enter(1, 7, QueryProcess(6000)), done.(found := Some(Text([97])))]

  lemma FileOpened()
    ensures var w := Run(QUERY_INTO_VIEW, 2);
            && Get(w, 1) == NEW_PROCESS.(clock := 2, live := map[1 := Text([97])], files := map[0 := 1])
            && w.shared == START.shared
  {
    CallReturns(QUERY_INTO_VIEW, 0, FileParams(0, Text([97])));
  }

  lemma SectionMade()
    ensures var w := Run(QUERY_INTO_VIEW, 4);
            && Get(w, 1).sections == map[0 := Id(1, 3)] && Get(w, 1).mappings == map[]
            && !Get(w, 1).dangling && !Get(w, 1).clashed
            && w.shared.objects == map[Id(1, 3) := Section(Null, Text([97]))]
  {
    FileOpened();
    CallReturns(QUERY_INTO_VIEW, 2, SectionParams(0, Null, 1));
  }

  lemma ViewWord(e: Event)
    requires e.Exit? && e.os == WinXP && e.mem == map[4096 := 0, 4097 := 16, 4098 := 0, 4099 := 0]
    ensures ReadOut(e, 4096) == 4096
  {}

  lemma FirstView(p: WinProc, f: CString, base: Word64, size: Word64)
    requires p.mappings == map[]
    ensures var q := MappingCreate(p, f, base, size);
            q.mappings == map[f := Key(base, size)] && q.clashed == p.clashed && q.dangling == p.dangling
  {}

  lemma ViewMapped()
    ensures var p := Get(Run(QUERY_INTO_VIEW, 6), 1);
            p.mappings == map[Text([97]) := Key(4096, 4096)] && !p.dangling && !p.clashed
  {
    hide Step, SharedAfter, SectionOpen, FileOpen, FileClose, MappingCreate, ReadOut;
    SectionMade();
    var h, params := QUERY_INTO_VIEW, MapSectionParams(Id(1, 3), 4096, 4096);
    CallReturns(h, 4, params);
    ViewWord(h[5]);
    FirstView(Called(Get(Run(h, 4), 1), 7, params), Text([97]), 4096, 4096);
  }

  /** The query deletes the view that its buffer lies in. */
  lemma QueryExample()
    ensures var h := QUERY_INTO_VIEW;
            && Completes(Run(h, 7), h[7], QueryParams(6000)) && Answered(Run(h, 7), h[7], 6000)
            && EndsInOrder(Get(Run(h, 7), 1).mappings) && Get(Run(h, 7), 1).mappings != map[]
            && Get(Run(h, 8), 1).mappings == map[]
  {
    hide FileOpen, FileClose, SectionOpen, MappingCreate, SharedAfter, Step, ReadOut;
    ViewMapped();
    var h := QUERY_INTO_VIEW;
    CallReturns(h, 6, QueryParams(6000));
    assert Covers(Get(Run(h, 7), 1).mappings, 6000, Text([97]));
  }
}
