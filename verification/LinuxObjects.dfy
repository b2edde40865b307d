/**
 One traced Linux process as the C code keeps it: objects linked by references and updated in place. The ghost field
 `model` follows the state machine of LinuxProcess; Valid ties it to the objects.
 */
module LinuxObjects {
  import opened Words
  import opened GuestMemory
  import opened FunctionTable
  import opened SearchTree
  import opened MappingStore
  import opened StoreModules
  import opened ImageReading
  import opened ElfReader
  import opened LinuxProcess
  import opened LinuxHistory
  import opened LinuxOwnership
  import opened LinuxProvenance

  /** The string that vmi_strdup allocates for a path; `id` is the number of the event that allocated it. */
  class Str {
    const bytes: seq<Byte>
    ghost const id: nat

    constructor (bytes: seq<Byte>, ghost id: nat)
      ensures this.bytes == bytes && this.id == id
    {
      this.bytes := bytes;
      this.id := id;
    }
  }

  /** The File of file.c, which owns its name. */
  class OpenFile {
    const handle: Handle
    const filename: Str?
    ghost const id: nat

    constructor (handle: Handle, filename: Str?, ghost id: nat)
      ensures this.handle == handle && this.filename == filename && this.id == id
    {
      this.handle, this.filename := handle, filename;
      this.id := id;
    }
  }

  /** What sc->params points to; MapOf borrows the File that its handle means at the enter. */
  datatype Borrowed =
    | Path(name: Str?)
    | CloseOf(fd: Handle)
    | MapOf(file: OpenFile, base: Word64, size: Word64, offset: Word64)

  datatype Call = Call(num: Sys, params: Borrowed)

  function Value(s: Str?): CString {
    if s == null then Null else Text(s.bytes)
  }

  ghost function PtrOf(s: Str?): Ptr {
    if s == null then NullPtr else At(s.id)
  }

  // ----- how the objects stand for the model -----

  /** While the string is allocated the model knows its text. */
  ghost predicate Says(p: Proc, s: Str?) {
    s != null ==> s.id < p.clock && (s.id in p.strings ==> p.strings[s.id] == s.bytes)
  }

  /** While the File is live the model knows its handle and its name. */
  ghost predicate Knows(p: Proc, f: OpenFile) {
    f.id < p.clock && Says(p, f.filename) && (f.id in p.live ==> p.live[f.id] == File(f.handle, PtrOf(f.filename)))
  }

  ghost predicate FilesAre(files: map<Handle, OpenFile>, p: Proc) {
    files.Keys == p.files.Keys && forall fd :: fd in files ==> files[fd].id == p.files[fd] && Knows(p, files[fd])
  }

  ghost predicate CallIs(c: Call, r: Pending, p: Proc) {
    && c.num == r.num
    && match c.params
       case Path(name) => r.params == FileParams(PtrOf(name)) && Says(p, name)
       case CloseOf(fd) => r.params == CloseParams(fd)
       case MapOf(file, base, size, offset) => r.params == MapFileParams(file.id, base, size, offset) && Knows(p, file)
  }

  ghost predicate CallsAre(calls: map<Word64, Call>, p: Proc) {
    calls.Keys == p.syscalls.Keys && forall sp :: sp in calls ==> CallIs(calls[sp], p.syscalls[sp], p)
  }

  lemma SaysOn(p: Proc, e: Event, s: Str?)
    requires Sound(p) && Says(p, s)
    ensures Says(Step(p, e), s)
  {
    if s != null {
      StepStrings(p, e, s.id);
    }
  }

  lemma KnowsOn(p: Proc, e: Event, f: OpenFile)
    requires Sound(p) && Knows(p, f)
    ensures Knows(Step(p, e), f)
  {
    SaysOn(p, e, f.filename);
    LiveAfter(p, e, f.id);
    StepTicks(p, e);
  }

  lemma CallOn(p: Proc, e: Event, c: Call, r: Pending)
    requires Sound(p) && CallIs(c, r, p)
    ensures CallIs(c, r, Step(p, e))
  {
    match c.params
    case Path(name) => SaysOn(p, e, name);
    case CloseOf(_) =>
    case MapOf(file, _, _, _) => KnowsOn(p, e, file);
  }

  /** The text behind the name of a live File. */
  lemma NameIsValue(p: Proc, f: OpenFile)
    requires Sound(p) && Knows(p, f) && f.id in p.live
    ensures Deref(p, p.live[f.id].name) == Value(f.filename)
  {
    if f.filename != null {
      assert InFile(p, f.id, f.filename.id);
    }
  }

  /** The handle and pending tables stand for those of the model. */
  ghost predicate TablesAre(files: map<Handle, OpenFile>, calls: map<Word64, Call>, p: Proc) {
    Sound(p) && FilesAre(files, p) && CallsAre(calls, p)
  }

  lemma FilesOn(files: map<Handle, OpenFile>, p: Proc, e: Event)
    requires Sound(p) && FilesAre(files, p)
    ensures forall fd :: fd in files ==> Knows(Step(p, e), files[fd])
  {
    forall fd | fd in files
      ensures Knows(Step(p, e), files[fd])
    {
      KnowsOn(p, e, files[fd]);
    }
  }

  lemma CallsOn(calls: map<Word64, Call>, p: Proc, e: Event)
    requires Sound(p) && CallsAre(calls, p)
    ensures forall sp :: sp in calls ==> CallIs(calls[sp], p.syscalls[sp], Step(p, e))
  {
    forall sp | sp in calls
      ensures CallIs(calls[sp], p.syscalls[sp], Step(p, e))
    {
      CallOn(p, e, calls[sp], p.syscalls[sp]);
    }
  }

  /** Neither mappings nor functions change, and nothing clashes. */
  ghost predicate SameImages(p: Proc, q: Proc) {
    q.mappings == p.mappings && q.functions == p.functions && q.clashed == p.clashed
  }

  /** An event that leaves the handles alone, with the pending table that the model has after it. */
  lemma SameFiles(files: map<Handle, OpenFile>, calls: map<Word64, Call>, p: Proc, e: Event)
    requires TablesAre(files, calls, p) && Step(p, e).files == p.files
    ensures Sound(Step(p, e)) && FilesAre(files, Step(p, e))
  {
    StepSound(p, e);
    FilesOn(files, p, e);
  }

  lemma EnterNothing(files: map<Handle, OpenFile>, calls: map<Word64, Call>, p: Proc, e: Event)
    requires TablesAre(files, calls, p) && e.Enter? && EnterParams(p, e).None?
    ensures TablesAre(files, calls, Step(p, e)) && SameImages(p, Step(p, e))
  {
    PendingAfter(p, e);
    EnterFrame(p, e);
    SameFiles(files, calls, p, e);
    CallsOn(calls, p, e);
  }

  lemma EnterSomething(files: map<Handle, OpenFile>, calls: map<Word64, Call>, p: Proc, e: Event, c: Call)
    requires TablesAre(files, calls, p) && e.Enter? && EnterParams(p, e).Some?
    requires CallIs(c, Pending(e.sc, EnterParams(p, e).value), Step(p, e))
    ensures TablesAre(files, calls[e.sp := c], Step(p, e)) && SameImages(p, Step(p, e))
  {
    PendingAfter(p, e);
    EnterFrame(p, e);
    SameFiles(files, calls, p, e);
    CallsOn(calls, p, e);
  }

  /** An exit erases its record; `files` is what the handle table becomes. */
  lemma ExitTables(files: map<Handle, OpenFile>, calls: map<Word64, Call>, p: Proc, e: Event,
                   files': map<Handle, OpenFile>)
    requires TablesAre(files, calls, p) && e.Exit? && FilesAre(files', Step(p, e))
    ensures TablesAre(files', calls - {e.sp}, Step(p, e))
  {
    PendingAfter(p, e);
    StepSound(p, e);
    CallsOn(calls, p, e);
  }

  lemma OpenedFiles(files: map<Handle, OpenFile>, calls: map<Word64, Call>, p: Proc, e: Event, f: OpenFile)
    requires TablesAre(files, calls, p) && e.Exit? && e.sp in calls && calls[e.sp].params.Path? && OpenOk(e.abi, e.ret)
    requires f.handle == e.ret && f.filename == calls[e.sp].params.name && f.id == p.clock
    ensures FilesAre(files[e.ret := f], Step(p, e)) && !EndsMmap(p, e)
  {
    hide FileOpen, FileClose, Free, MappingCreate;
    FilesAfter(p, e);
    FilesOn(files, p, e);
    SaysOn(p, e, f.filename);
    LiveAfter(p, e, p.clock);
    StepTicks(p, e);
  }

  lemma OtherFiles(files: map<Handle, OpenFile>, calls: map<Word64, Call>, p: Proc, e: Event)
    requires TablesAre(files, calls, p) && e.Exit?
    requires e.sp in calls && calls[e.sp].params.Path? ==> !OpenOk(e.abi, e.ret)
    ensures e.sp in calls && calls[e.sp].params.CloseOf? && calls[e.sp].num == Close && e.ret == 0 ==>
              FilesAre(files - {calls[e.sp].params.fd}, Step(p, e))
    ensures !(e.sp in calls && calls[e.sp].params.CloseOf? && calls[e.sp].num == Close && e.ret == 0) ==>
              FilesAre(files, Step(p, e))
    ensures e.sp in calls && !calls[e.sp].params.MapOf? ==> !EndsMmap(p, e)
  {
    FilesAfter(p, e);
    FilesOn(files, p, e);
  }

  lemma ExitNothing(files: map<Handle, OpenFile>, calls: map<Word64, Call>, p: Proc, e: Event)
    requires TablesAre(files, calls, p) && e.Exit? && e.sp !in calls
    ensures TablesAre(files, calls, Step(p, e)) && SameImages(p, Step(p, e))
  {
    OtherFiles(files, calls, p, e);
    ExitTables(files, calls, p, e, files);
    assert calls - {e.sp} == calls;
    NoMmap(p, e);
  }

  lemma SaysNew(p: Proc, e: Event, s: Str?)
    requires Sound(p) && e.Enter? && PtrOf(s) == NewName(p, e.path) && Value(s) == e.path
    ensures Says(Step(p, e), s)
  {
    if s != null {
      StepStrings(p, e, s.id);
      assert s.id !in p.strings;
    }
  }

  lemma NoMmap(p: Proc, e: Event)
    requires e.Exit? && !EndsMmap(p, e)
    ensures SameImages(p, Step(p, e))
  {
    hide ExitStep, EnterStep, TbStep;
    ExitFrame(p, e);
    if e.sp in p.syscalls && p.syscalls[e.sp].params.MapFileParams? {
      ErasesOnly(p, e);
    }
  }

  lemma ErasesOnly(p: Proc, e: Event)
    requires e.Exit? && e.sp in p.syscalls
    requires p.syscalls[e.sp].params.MapFileParams? && p.syscalls[e.sp].num != Mmap
    ensures ExitStep(p, e) == p.(syscalls := p.syscalls - {e.sp})
  {
    hide Finish;
    FinishNothing(p, p.syscalls[e.sp], e);
  }

  /** The mmap2 record has no exit handler. */
  lemma FinishNothing(p: Proc, sc: Pending, e: Event)
    requires e.Exit? && sc.params.MapFileParams? && sc.num != Mmap
    ensures Finish(p, sc, e) == p
  {
    hide FileOpen, FileClose, Free, MappingCreate;
  }

  lemma MmapEffect(files: map<Handle, OpenFile>, calls: map<Word64, Call>, p: Proc, e: Event)
    requires TablesAre(files, calls, p) && e.Exit? && e.sp in calls && calls[e.sp].params.MapOf? && Defined(p, e)
    ensures TablesAre(files, calls - {e.sp}, Step(p, e)) && Step(p, e).functions == p.functions
    ensures var c, q := calls[e.sp], Step(p, e);
            if c.num == Mmap && MmapOk(e.abi, e.ret) then
              var m := MappingCreate(p, Value(c.params.file.filename), e.ret, c.params.size);
              q.mappings == m.mappings && q.clashed == m.clashed
            else q.mappings == p.mappings && q.clashed == p.clashed
  {
    var c := calls[e.sp];
    OtherFiles(files, calls, p, e);
    ExitTables(files, calls, p, e, files);
    ExitFrame(p, e);
    MapsAfter(p, e);
    if c.num == Mmap {
      NameIsValue(p, c.params.file);
    } else {
      assert Finish(p, p.syscalls[e.sp], e) == p;
    }
  }

  /** The C program is defined on this exit: a borrowed File that it uses has not been destroyed. */
  ghost predicate Defined(p: Proc, e: Event) {
    EndsMmap(p, e) ==> p.syscalls[e.sp].params.file in p.live
  }

  ghost function StatusTable(t: map<CString, Mapped>): map<CString, Option<Status>> {
    map f | f in t :: t[f].status
  }

  /** What mapping_create does to the statuses. */
  lemma CreateStatuses(p: Proc, f: CString, base: Word64, size: Word64)
    requires !MappingCreate(p, f, base, size).clashed
    ensures var t, t' := StatusTable(p.mappings), StatusTable(MappingCreate(p, f, base, size).mappings);
            t' == t[f := if f in t then t[f] else None]
  {
    CreateFrame(p, f, base, size);
  }

  /** What a block in file f does to the statuses and to the functions. */
  ghost function StatusAfter(t: map<CString, Option<Status>>, mem: Memory, base: Word64,
                             f: CString): map<CString, Option<Status>> {
    if f in t && t[f] == Some(Parsed) then t
    else t[f := Some(if Parse(mem, base, f).verdict == Done then Parsed else Unknown)]
  }

  ghost function EntriesAfter(entries: Entries, t: map<CString, Option<Status>>, mem: Memory, base: Word64,
                              f: CString): Entries {
    if f in t && t[f] == Some(Parsed) then entries else Record(entries, Parse(mem, base, f).added)
  }

  lemma StatusAgain(t: map<CString, Option<Status>>, mem: Memory, base: Word64, f: CString)
    requires f in t && t[f] != Some(Parsed)
    ensures StatusAfter(t[f := Some(Unknown)], mem, base, f) == StatusAfter(t, mem, base, f)
  {}

  lemma BlockTables(files: map<Handle, OpenFile>, calls: map<Word64, Call>, p: Proc, e: Event)
    requires TablesAre(files, calls, p) && e.BeforeTb?
    ensures TablesAre(files, calls, Step(p, e)) && Step(p, e).clashed == p.clashed
    ensures e.found.None? ==> SameImages(p, Step(p, e))
  {
    PendingAfter(p, e);
    TbFrame(p, e);
    SameFiles(files, calls, p, e);
    CallsOn(calls, p, e);
  }

  lemma StatusUpdate(t: map<CString, Mapped>, f: CString, m: Mapped)
    ensures StatusTable(t[f := m]) == StatusTable(t)[f := m.status]
  {}

  lemma StatusAt(t: map<CString, Mapped>, f: CString)
    requires f in t
    ensures f in StatusTable(t) && StatusTable(t)[f] == t[f].status
  {}

  /** What a block in file f does to the mapping and to the functions. */
  lemma TbTables(p: Proc, e: Event, f: CString)
    requires e.BeforeTb? && e.found == Some(f) && f in p.mappings
    ensures var q, m := TbStep(p, e), p.mappings[f];
            var o := Parse(e.mem, m.key.base, f);
            if m.status == Some(Parsed) then q == p
            else
              && q.mappings == p.mappings[f := Mapped(m.key, Some(if o.verdict == Done then Parsed else Unknown))]
              && q.functions == Record(p.functions, o.added)
  {
    hide Parse, Record;
  }

  lemma BlockStatuses(p: Proc, q: Proc, mem: Memory, f: CString)
    requires f in p.mappings
    requires var m := p.mappings[f];
             var o := Parse(mem, m.key.base, f);
             if m.status == Some(Parsed) then q.mappings == p.mappings
             else q.mappings == p.mappings[f := Mapped(m.key, Some(if o.verdict == Done then Parsed else Unknown))]
    ensures StatusTable(q.mappings) == StatusAfter(StatusTable(p.mappings), mem, p.mappings[f].key.base, f)
  {
    hide Parse, StatusTable;
    StatusAt(p.mappings, f);
    if p.mappings[f].status != Some(Parsed) {
      StatusUpdate(p.mappings, f, q.mappings[f]);
    }
  }

  lemma BlockEffect(p: Proc, e: Event, mem: Memory, f: CString, key: Key)
    requires e.BeforeTb? && e.mem == mem && e.found == Some(f) && f in p.mappings && p.mappings[f].key == key
    ensures var q, t := Step(p, e), StatusTable(p.mappings);
            && Intervals(q.mappings) == Intervals(p.mappings)
            && StatusTable(q.mappings) == StatusAfter(t, mem, key.base, f)
            && q.functions == EntriesAfter(p.functions, t, mem, key.base, f)
  {
    hide Parse, Record, Intervals, TbStep, EnterStep, ExitStep, StatusTable, StatusAfter;
    TbFrame(p, e);
    TbTables(p, e, f);
    StatusAt(p.mappings, f);
    BlockStatuses(p, TbStep(p, e), mem, f);
  }

  /** A run goes on with the next event. */
  lemma RunOn(h: History, e: Event)
    ensures Run(h + [e], |h + [e]|) == Step(Run(h, |h|), e)
  {
    RunOfPrefix(h, e, |h|);
    assert (h + [e])[|h|] == e;
  }

  class Process {
    var files: map<Handle, OpenFile>
    var syscalls: map<Word64, Call>
    const store: Store
    const functions: Functions
    ghost var model: Proc
    /** The events so far. */
    ghost var history: History

    /** The store says what the model says. */
    ghost predicate StoreIs(t: map<CString, Mapped>)
      reads store, store.byName.Values, Codes(store)
    {
      store.Valid() && PointBack(store) && store.Abs() == Intervals(t) && StatusesAre(store, StatusTable(t))
    }

    /** The store still says so when none of its objects has changed. */
    twostate lemma StoreKept(t: map<CString, Mapped>)
      requires old(StoreIs(t)) && unchanged(store)
      requires forall m :: m in old(store.byName.Values) ==> unchanged(m)
      requires forall x :: x in old(Codes(store)) ==> unchanged(x)
      ensures StoreIs(t)
    {}

    /** The objects agree with the model. */
    ghost predicate Valid()
      reads this`files, this`syscalls, this`model, store, store.byName.Values, Codes(store), functions
    {
      && !model.clashed && TablesAre(files, syscalls, model)
      && StoreIs(model.mappings)
      && functions.Valid() && functions.entries == model.functions
    }

    /** Between events the objects agree with the model, and the model is where its history leads. */
    ghost predicate Ready()
      reads this, store, store.byName.Values, Codes(store), functions
    {
      Valid() && model == Run(history, |history|)
    }

    lemma IsRun()
      requires Ready()
      ensures Valid() && model == Run(history, |history|)
    {}

    /** process_create */
    constructor ()
      ensures Ready() && history == []
      ensures fresh(store) && fresh(functions) && store.byName == map[] && Codes(store) == {}
    {
      files, syscalls := map[], map[];
      store := new Store();
      functions := new Functions();
      model, history := NEW_PROCESS, [];
      new;
      assert store.byName == map[] by {
        assert store.Abs() == map[];
        assert forall f :: f in store.byName <==> f in store.Abs();
      }
      assert StoreIs(model.mappings);
      assert Run(history, |history|) == NEW_PROCESS;
    }

    /** A system call instruction. */
    method OnCall(e: Event)
      requires Ready() && e.Enter?
      modifies this
      ensures Ready() && history == old(history) + [e]
    {
      hide Step, Run, TablesAre, StoreIs;
      Enter(e);
      Past(e);
    }

    /** A return instruction. */
    method OnReturn(e: Event, stealPlan: seq<Turn>, insertPlan: seq<Turn>)
      requires Ready() && e.Exit? && Defined(model, e)
      modifies this, store, store.byName.Values
      ensures history == old(history) + [e] && model == Run(history, |history|) && (!model.clashed ==> Ready())
      ensures fresh(store.byName.Values - old(store.byName.Values)) && Codes(store) <= old(Codes(store))
    {
      hide Step, Run, TablesAre, StoreIs;
      Exit(e, stealPlan, insertPlan);
      Past(e);
    }

    /** A translation block. */
    method OnBlock(pc: Word64, mem: Memory) returns (ghost found: Option<CString>)
      requires Ready()
      modifies this, store.byName.Values, Codes(store), functions
      ensures Answer(Intervals(old(model.mappings)), pc, found)
      ensures Ready() && history == old(history) + [LinuxProcess.BeforeTb(pc, mem, found)]
      ensures store.byName == old(store.byName) && fresh(Codes(store) - old(Codes(store)))
    {
      hide Step, Run, TablesAre, StoreIs;
      found := BeforeTb(pc, mem);
      Past(LinuxProcess.BeforeTb(pc, mem, found));
    }

    /** The event e belongs to the past. */
    ghost method Past(e: Event)
      requires model == Step(Run(history, |history|), e)
      modifies this`history
      ensures history == old(history) + [e] && model == Run(history, |history|)
      ensures old(Valid()) ==> Valid()
    {
      hide TablesAre, StoreIs;
      RunOn(history, e);
      history := history + [e];
      if old(Valid()) {
        StoreKept(model.mappings);
      }
    }

    /** syscall_enter_linux64 or syscall_enter_linux32, and sc_insert of what it returns. */
    method Enter(e: Event)
      requires Valid() && e.Enter?
      modifies this`files, this`syscalls, this`model
      ensures Valid() && model == Step(old(model), e)
    {
      hide Step, TablesAre, StoreIs;
      var params := EnterLinux(e);
      StoreKept(model.mappings);
      if params.Some? {
        EnterSomething(files, syscalls, model, e, Call(e.sc, params.value));
        Become(files, syscalls[e.sp := Call(e.sc, params.value)], Step(model, e));
      } else {
        EnterNothing(files, syscalls, model, e);
        Become(files, syscalls, Step(model, e));
      }
    }

    /** New handle and pending tables, for the model q. */
    method Become(files: map<Handle, OpenFile>, syscalls: map<Word64, Call>, ghost q: Proc)
      requires Valid() && TablesAre(files, syscalls, q)
      requires SameImages(model, q)
      modifies this`files, this`syscalls, this`model
      ensures Valid() && model == q
    {
      hide TablesAre, StoreIs;
      this.files, this.syscalls := files, syscalls;
      model := q;
      StoreKept(q.mappings);
    }

    method EnterLinux(e: Event) returns (params: Option<Borrowed>)
      requires TablesAre(files, syscalls, model) && e.Enter?
      ensures params.Some? <==> EnterParams(model, e).Some?
      ensures params.Some? ==>
                CallIs(Call(e.sc, params.value), Pending(e.sc, EnterParams(model, e).value), Step(model, e))
    {
      params := None;
      if OpenLike(e.sc) {
        var name := Strdup(e.path);
        SaysNew(model, e, name);
        params := Some(Path(name));
      } else if e.sc == Close {
        params := Some(CloseOf(e.args.a1));
      } else if MapsFile(e.abi, e.sc) {
        if e.args.a5 in files {
          var file := files[e.args.a5];
          KnowsOn(model, e, file);
          params := Some(MapOf(file, e.args.a1, e.args.a2, e.args.a6));
        }
      } else if e.sc == Execve {
        var _ := Strdup(e.path);
      }
    }

    /** vmi_strdup of the path that this event's call takes. */
    method Strdup(path: CString) returns (s: Str?)
      ensures Value(s) == path && PtrOf(s) == NewName(model, path) && (s != null ==> fresh(s))
    {
      match path
      case Null => s := null;
      case Text(bytes) => s := new Str(bytes, model.clock);
    }

    /** sc_find, syscall_exit_linux64 or syscall_exit_linux32, and sc_erase. */
    method Exit(e: Event, stealPlan: seq<Turn>, insertPlan: seq<Turn>)
      requires Valid() && e.Exit? && Defined(model, e)
      modifies this`files, this`syscalls, this`model, store, store.byName.Values
      ensures model == Step(old(model), e) && (!model.clashed ==> Valid())
      ensures fresh(store.byName.Values - old(store.byName.Values)) && Codes(store) <= old(Codes(store))
    {
      hide Step, TablesAre, StoreIs;
      if e.sp in syscalls {
        match syscalls[e.sp].params
        case Path(_) => ExitOpen(e);
        case CloseOf(_) => ExitClose(e);
        case MapOf(_, _, _, _) => ExitMmap(e, stealPlan, insertPlan);
      } else {
        ExitNothing(files, syscalls, model, e);
        Become(files, syscalls, Step(model, e));
      }
    }

    /**
     open, openat and creat: a successful call hands its path to a new File, in place of an old one; a failed one
     frees it.
     */
    method ExitOpen(e: Event)
      requires Valid() && e.Exit? && e.sp in syscalls && syscalls[e.sp].params.Path?
      modifies this`files, this`syscalls, this`model
      ensures Valid() && model == Step(old(model), e)
    {
      hide Step, TablesAre, StoreIs;
      var handles := files;
      if OpenOk(e.abi, e.ret) {
        var file := new OpenFile(e.ret, syscalls[e.sp].params.name, model.clock);
        OpenedFiles(files, syscalls, model, e, file);
        handles := files[e.ret := file];
        StoreKept(model.mappings);
      } else {
        OtherFiles(files, syscalls, model, e);
      }
      Erase(e, handles);
    }

    /** close: file_close when it succeeded. */
    method ExitClose(e: Event)
      requires Valid() && e.Exit? && e.sp in syscalls && syscalls[e.sp].params.CloseOf?
      modifies this`files, this`syscalls, this`model
      ensures Valid() && model == Step(old(model), e)
    {
      hide Step, TablesAre, StoreIs;
      OtherFiles(files, syscalls, model, e);
      var handles := files;
      if syscalls[e.sp].num == Close && e.ret == 0 {
        handles := files - {syscalls[e.sp].params.fd};
      }
      Erase(e, handles);
    }

    /** The end of an exit that maps nothing, with its new handle table: sc_erase. */
    method Erase(e: Event, handles: map<Handle, OpenFile>)
      requires Valid() && e.Exit? && FilesAre(handles, Step(model, e)) && !EndsMmap(model, e)
      modifies this`files, this`syscalls, this`model
      ensures Valid() && model == Step(old(model), e)
    {
      hide Step, TablesAre, StoreIs;
      NoMmap(model, e);
      ExitTables(files, syscalls, model, e, handles);
      Become(handles, syscalls - {e.sp}, Step(model, e));
    }

    /** mmap: mapping_create with the name of the borrowed File. */
    method ExitMmap(e: Event, stealPlan: seq<Turn>, insertPlan: seq<Turn>)
      requires Valid() && e.Exit? && e.sp in syscalls && syscalls[e.sp].params.MapOf? && Defined(model, e)
      modifies this`files, this`syscalls, this`model, store, store.byName.Values
      ensures model == Step(old(model), e) && (!model.clashed ==> Valid())
      ensures fresh(store.byName.Values - old(store.byName.Values)) && Codes(store) <= old(Codes(store))
    {
      hide Step, TablesAre, StoreIs;
      var c := syscalls[e.sp];
      MmapEffect(files, syscalls, model, e);
      if c.num == Mmap && MmapOk(e.abi, e.ret) {
        CreateMapping(Value(c.params.file.filename), e.ret, c.params.size, stealPlan, insertPlan);
      }
      Settle(syscalls - {e.sp}, Step(model, e));
    }

    /** A new pending table, for the model q, which the other tables already follow. */
    method Settle(syscalls: map<Word64, Call>, ghost q: Proc)
      requires TablesAre(files, syscalls, q) && (!q.clashed ==> StoreIs(q.mappings))
      requires functions.Valid() && functions.entries == q.functions
      modifies this`syscalls, this`model
      ensures model == q && (!q.clashed ==> Valid())
    {
      hide TablesAre, StoreIs;
      this.syscalls := syscalls;
      model := q;
      if !q.clashed {
        StoreKept(q.mappings);
      }
    }

    /** mapping_create in the process's store. */
    method CreateMapping(name: CString, base: Word64, size: Word64, stealPlan: seq<Turn>, insertPlan: seq<Turn>)
      requires StoreIs(model.mappings) && !model.clashed
      modifies store, store.byName.Values
      ensures !MappingCreate(model, name, base, size).clashed ==>
              StoreIs(MappingCreate(model, name, base, size).mappings)
      ensures fresh(store.byName.Values - old(store.byName.Values)) && Codes(store) <= old(Codes(store))
    {
      ghost var p, t := model, StatusTable(model.mappings);
      NamedAre(store, store.byName);
      CreateKeeping(store, name, base, size, stealPlan, insertPlan, t);
      CreateFrame(p, name, base, size);
      if !MappingCreate(p, name, base, size).clashed {
        CreateStatuses(p, name, base, size);
      }
    }

    /** module_needs_before_tb and module_before_tb. */
    method BeforeTb(pc: Word64, mem: Memory) returns (ghost found: Option<CString>)
      requires Valid()
      modifies this`syscalls, this`model, store.byName.Values, Codes(store), functions
      ensures Answer(Intervals(old(model.mappings)), pc, found)
      ensures Valid() && model == Step(old(model), LinuxProcess.BeforeTb(pc, mem, found))
      ensures store.byName == old(store.byName) && fresh(Codes(store) - old(Codes(store)))
    {
      hide Step, TablesAre, Answer, StatusesAre, PointBack;
      var m := store.Find(pc);
      found := store.NameOf(m);
      if m != null {
        Block(m, mem, LinuxProcess.BeforeTb(pc, mem, found));
      } else {
        NoBlock(LinuxProcess.BeforeTb(pc, mem, found));
      }
    }

    /** A block in no mapping. */
    ghost method NoBlock(e: Event)
      requires Valid() && e.BeforeTb? && e.found == None
      modifies this`model
      ensures Valid() && model == Step(old(model), e)
    {
      hide Step, TablesAre, StoreIs;
      BlockTables(files, syscalls, model, e);
      model := Step(model, e);
      StoreKept(model.mappings);
    }

    /** A block in mapping m. */
    method Block(m: Mapping, mem: Memory, ghost e: Event)
      requires Valid() && m in store.byName.Values
      requires e.BeforeTb? && e.mem == mem && e.found == Some(m.filename)
      modifies this`syscalls, this`model, store.byName.Values, Codes(store), functions
      ensures Valid() && model == Step(old(model), e)
      ensures store.byName == old(store.byName) && fresh(Codes(store) - old(Codes(store)))
    {
      hide Step, TablesAre, StatusAfter, EntriesAfter, Indexes;
      NamedAre(store, store.byName);
      assert store.Abs()[m.filename] == KeyOf(m);
      BlockTables(files, syscalls, model, e);
      BlockEffect(model, e, mem, m.filename, KeyOf(m));
      ParseModule(m, mem, StatusTable(model.mappings));
      Settle(syscalls, Step(model, e));
    }

    /**
     The module of mapping m, made on first use, is parsed unless that has succeeded before; t are the old statuses.
     */
    method ParseModule(m: Mapping, mem: Memory, ghost t: map<CString, Option<Status>>)
      requires store.Valid() && PointBack(store) && StatusesAre(store, t) && functions.Valid()
               && m in store.byName.Values
      modifies m`code, Codes(store), functions
      ensures store.Valid() && store.Abs() == old(store.Abs()) && PointBack(store) && functions.Valid()
      ensures store.byName == old(store.byName) && fresh(Codes(store) - old(Codes(store)))
      ensures StatusesAre(store, StatusAfter(t, mem, KeyOf(m).base, m.filename))
      ensures functions.entries == EntriesAfter(old(functions.entries), t, mem, KeyOf(m).base, m.filename)
    {
      hide Parse, Record, PointBack, StatusesAre, Indexes;
      ghost var f := m.filename;
      EnsureModule(store, m, t);
      if m.code.status == Unknown {
        Attempt(m, mem, t[f := Some(Unknown)]);
        StatusAgain(t, mem, KeyOf(m).base, f);
      } else {
        assert t[f := Some(Parsed)] == t;
      }
    }

    /** One attempt at parsing. */
    method Attempt(m: Mapping, mem: Memory, ghost t: map<CString, Option<Status>>)
      requires store.Valid() && PointBack(store) && StatusesAre(store, t) && functions.Valid()
               && m in store.byName.Values && m.code != null
      requires m.filename in t && t[m.filename] == Some(Unknown)
      modifies m.code`status, functions
      ensures store.Valid() && store.Abs() == old(store.Abs()) && PointBack(store) && functions.Valid()
              && Codes(store) == old(Codes(store))
      ensures StatusesAre(store, StatusAfter(t, mem, KeyOf(m).base, m.filename))
      ensures functions.entries == Record(old(functions.entries), Parse(mem, KeyOf(m).base, m.filename).added)
    {
      hide Parse, Record, Indexes;
      var verdict := ReadImage(mem, m.base, m.filename);
      if verdict == Done {
        SetParsed(store, m, t);
      } else {
        assert t[m.filename := Some(Unknown)] == t;
      }
    }

    /** parse_header_elf with the process's functions. */
    method ReadImage(mem: Memory, base: Word64, f: CString) returns (verdict: Verdict)
      requires functions.Valid()
      modifies functions
      ensures functions.Valid() && verdict == Parse(mem, base, f).verdict
      ensures functions.entries == Record(old(functions.entries), Parse(mem, base, f).added)
    {
      hide Parse;
      ghost var calls := functions.calls;
      verdict := ParseHeaderElf(mem, base, f, functions);
      RecordConcat(map[], calls, Parse(mem, base, f).added);
    }

  }

  /** The process is valid, and all its objects are in `owned`. */
  ghost predicate Holds(p: Process, owned: set<object>)
    reads owned
  {
    && p in owned && p.store in owned && p.functions in owned
    && p.store.byName.Values <= owned && Codes(p.store) <= owned
    && p.Ready()
  }
}
