/**
 One traced process on Linux: file.c, the pending table of syscalls.c, syscall-linux64.c and
 syscall-linux32.c, and the parsing that module.c starts.

 The C code links its records by pointers. Here a string or File object is named by the number of the
 event that allocated it, numbers are never used again, and a freed object disappears from `strings`
 or `live`.
 */
module LinuxProcess {
  import opened Words
  import opened GuestMemory
  import opened FunctionTable
  import opened SearchTree
  import opened MappingStore
  import opened ImageReading
  import opened ElfReader

  type Handle = Word64

  datatype Sys = Open | Openat | Close | Creat | Mmap | Mmap2 | Execve | Untracked

  datatype Abi = Linux32 | Linux64

  /** The arguments a handler looks at, after truncation to its word size. */
  datatype Args = Args(a1: Word64, a2: Word64, a5: Word64, a6: Word64)

  datatype Event =
    | /** A system call instruction; `path` is what vmi_strdup reads for the calls that take a path. */
      Enter(sp: Word64, abi: Abi, sc: Sys, args: Args, path: CString)
    | /** A return instruction with the result register. */
      Exit(sp: Word64, abi: Abi, ret: Word64)
    | /** A translation block at pc; `found` is the file of the mapping that mapping_find returned for pc. */
      BeforeTb(pc: Word64, mem: Memory, found: Option<CString>)

  /** A `char *` to an allocated path. */
  datatype Ptr = NullPtr | At(id: nat)

  datatype Params =
    | FileParams(name: Ptr)
    | CloseParams(handle: Handle)
    | MapFileParams(file: nat, base: Word64, size: Word64, offset: Word64)

  datatype Pending = Pending(num: Sys, params: Params)

  datatype File = File(handle: Handle, name: Ptr)

  datatype Mapped = Mapped(key: Key, status: Option<Status>)

  datatype Proc = Proc(
    clock: nat,
    strings: map<nat, seq<Byte>>,
    freed: seq<nat>,
    live: map<nat, File>,
    files: map<Handle, nat>,
    syscalls: map<Word64, Pending>,
    mappings: map<CString, Mapped>,
    functions: Entries,
    /** A File object was used after file_destroy; the C program is not defined from here on. */
    dangling: bool,
    /**
     A mapping took the (base, size) of another one, which g_tree_insert destroyed; likewise not defined from here on.
     */
    clashed: bool)

  const NEW_PROCESS := Proc(0, map[], [], map[], map[], map[], map[], map[], false, false)

  predicate OpenLike(sc: Sys) {
    sc in {Open, Openat, Creat}
  }

  /** The mmap cases of the two enter handlers. */
  predicate MapsFile(abi: Abi, sc: Sys) {
    sc == Mmap || (sc == Mmap2 && abi == Linux32)
  }

  /** `(int64_t)retval >= 0`, `(int32_t)retval >= 0` */
  predicate OpenOk(abi: Abi, ret: Word64) {
    ret < if abi == Linux64 then 0x8000_0000_0000_0000 else 0x8000_0000
  }

  /** `retval != -1UL`; a 32-bit value never equals it. */
  predicate MmapOk(abi: Abi, ret: Word64) {
    abi == Linux64 ==> ret != TWO_TO_64 - 1
  }

  function Free(p: Proc, s: Ptr): Proc {
    match s
    case NullPtr => p
    case At(id) => p.(strings := p.strings - {id}, freed := p.freed + [id])
  }

  /** file_close, and the replacement of an old entry by g_hash_table_insert: file_destroy frees the name too. */
  function FileClose(p: Proc, h: Handle): Proc {
    if h !in p.files then p
    else
      var id := p.files[h];
      var p' := if id in p.live then Free(p, p.live[id].name) else p;
      p'.(files := p.files - {h}, live := p.live - {id})
  }

  /** file_open */
  function FileOpen(p: Proc, name: Ptr, h: Handle): Proc {
    var p' := FileClose(p, h);
    p'.(files := p'.files[h := p.clock], live := p'.live[p.clock := File(h, name)])
  }

  function Deref(p: Proc, s: Ptr): CString {
    match s
    case NullPtr => Null
    case At(id) => if id in p.strings then Text(p.strings[id]) else Null
  }

  function Intervals(ms: map<CString, Mapped>): Table {
    map f | f in ms :: ms[f].key
  }

  /**
   mapping_create: a new mapping has no module, an extended one keeps it. A mapping of another file with the same
   (base, size) is destroyed.
   */
  function MappingCreate(p: Proc, f: CString, base: Word64, size: Word64): Proc {
    var t := Created(Intervals(p.mappings), f, base, size);
    var others := map g | g in p.mappings && g != f && t[g] != t[f] :: p.mappings[g];
    p.(mappings := others[f := Mapped(t[f], if f in p.mappings then p.mappings[f].status else None)],
       clashed := p.clashed || !Unshared(t, f))
  }

  function NewName(p: Proc, path: CString): Ptr {
    if path.Null? then NullPtr else At(p.clock)
  }

  function Allocate(p: Proc, path: CString): Proc {
    match path
    case Null => p
    case Text(bytes) => p.(strings := p.strings[p.clock := bytes])
  }

  /** syscall_enter_linux64, syscall_enter_linux32: the record for the pending table, if any. */
  function EnterParams(p: Proc, e: Event): Option<Params>
    requires e.Enter?
  {
    if OpenLike(e.sc) then Some(FileParams(NewName(p, e.path)))
    else if e.sc == Close then Some(CloseParams(e.args.a1))
    else if MapsFile(e.abi, e.sc) && e.args.a5 in p.files then
      Some(MapFileParams(p.files[e.args.a5], e.args.a1, e.args.a2, e.args.a6))
    else None
  }

  /** The enter handler, and sc_insert when it returned a record. */
  function EnterStep(p: Proc, e: Event): Proc
    requires e.Enter?
  {
    if e.sc == Execve then Free(Allocate(p, e.path), NewName(p, e.path))
    else
      var p' := if OpenLike(e.sc) then Allocate(p, e.path) else p;
      match EnterParams(p, e)
      case None => p'
      case Some(params) => p'.(syscalls := p.syscalls[e.sp := Pending(e.sc, params)])
  }

  /** syscall_exit_linux64, syscall_exit_linux32 */
  function Finish(p: Proc, sc: Pending, e: Event): Proc
    requires e.Exit?
  {
    match sc.params
    case FileParams(name) =>
      if !OpenLike(sc.num) then p
      else if OpenOk(e.abi, e.ret) then FileOpen(p, name, e.ret)
      else Free(p, name)
    case CloseParams(h) =>
      if sc.num == Close && e.ret == 0 then FileClose(p, h) else p
    case MapFileParams(file, _, size, _) =>
      if sc.num != Mmap then p
      else if file !in p.live then p.(dangling := true)
      else if MmapOk(e.abi, e.ret) then MappingCreate(p, Deref(p, p.live[file].name), e.ret, size)
      else p
  }

  /** The return instruction: sc_find, the exit handler, sc_erase. */
  function ExitStep(p: Proc, e: Event): Proc
    requires e.Exit?
  {
    if e.sp !in p.syscalls then p
    else
      var p' := Finish(p, p.syscalls[e.sp], e);
      p'.(syscalls := p.syscalls - {e.sp})
  }

  /** module_before_tb with os_type == OS_LINUX */
  function TbStep(p: Proc, e: Event): Proc
    requires e.BeforeTb?
  {
    if e.found.None? || e.found.value !in p.mappings then p
    else
      var f := e.found.value;
      var m := p.mappings[f];
      if m.status == Some(Parsed) then p
      else
        var o := Parse(e.mem, m.key.base, f);
        p.(mappings := p.mappings[f := m.(status := Some(if o.verdict == Done then Parsed else Unknown))],
           functions := Record(p.functions, o.added))
  }

  function Tick(p: Proc): Proc {
    p.(clock := p.clock + 1)
  }

  function Step(p: Proc, e: Event): Proc {
    match e
    case Enter(_, _, _, _, _) => Tick(EnterStep(p, e))
    case Exit(_, _, _) => Tick(ExitStep(p, e))
    case BeforeTb(_, _, _) => Tick(TbStep(p, e))
  }

  type History = seq<Event>

  /** The process after the first n events. */
  function Run(h: History, n: nat): Proc
    requires n <= |h|
  {
    if n == 0 then NEW_PROCESS else Step(Run(h, n - 1), h[n - 1])
  }

  lemma {:induction false} RunOfPrefix(h: History, e: Event, n: nat)
    requires n <= |h|
    ensures Run(h + [e], n) == Run(h, n)
    decreases n
  {
    if n > 0 {
      RunOfPrefix(h, e, n - 1);
    }
  }

  /** The mapping that event j finds is one that mapping_find may answer for its address. */
  ghost predicate AnsweredAt(h: History, j: nat)
    requires j < |h|
  {
    h[j].BeforeTb? ==> Answer(Intervals(Run(h, j).mappings), h[j].pc, h[j].found)
  }

  // ----- what the steps leave alone -----

  /** Without a clash mapping_create touches no other mapping. */
  lemma CreateFrame(p: Proc, f: CString, base: Word64, size: Word64)
    ensures var q := MappingCreate(p, f, base, size);
            q.clashed <==> p.clashed || !Unshared(Created(Intervals(p.mappings), f, base, size), f)
    ensures var q := MappingCreate(p, f, base, size);
            !q.clashed ==>
              && Intervals(q.mappings) == Created(Intervals(p.mappings), f, base, size)
              && q.mappings.Keys == p.mappings.Keys + {f}
              && (forall g :: g in p.mappings && g != f ==> q.mappings[g] == p.mappings[g])
              && q.mappings[f].status == if f in p.mappings then p.mappings[f].status else None
  {}

  lemma EnterFrame(p: Proc, e: Event)
    requires e.Enter?
    ensures var q := EnterStep(p, e);
            && q.clock == p.clock && q.files == p.files && q.live == p.live
            && q.mappings == p.mappings && q.functions == p.functions && q.dangling == p.dangling
            && q.clashed == p.clashed
  {
    hide EnterParams, Allocate, Free;
    AllocateFrame(p, e.path);
    if e.sc == Execve {
      FreeFrame(Allocate(p, e.path), NewName(p, e.path));
    }
  }

  lemma AllocateFrame(p: Proc, path: CString)
    ensures var q := Allocate(p, path);
            && q.clock == p.clock && q.files == p.files && q.live == p.live && q.syscalls == p.syscalls
            && q.mappings == p.mappings && q.functions == p.functions && q.dangling == p.dangling
            && q.clashed == p.clashed
  {}

  lemma FreeFrame(p: Proc, s: Ptr)
    ensures var q := Free(p, s);
            && q.clock == p.clock && q.files == p.files && q.live == p.live && q.syscalls == p.syscalls
            && q.mappings == p.mappings && q.functions == p.functions && q.dangling == p.dangling
            && q.clashed == p.clashed
  {}

  lemma CloseFrame(p: Proc, h: Handle)
    ensures var q := FileClose(p, h);
            && q.clock == p.clock && q.syscalls == p.syscalls
            && q.mappings == p.mappings && q.functions == p.functions && q.dangling == p.dangling
            && q.clashed == p.clashed
            && q.files == p.files - {h} && q.live == if h in p.files then p.live - {p.files[h]} else p.live
  {
    if h in p.files && p.files[h] in p.live {
      FreeFrame(p, p.live[p.files[h]].name);
    }
  }

  lemma OpenFrame(p: Proc, name: Ptr, h: Handle)
    ensures var q := FileOpen(p, name, h);
            && q.clock == p.clock && q.syscalls == p.syscalls
            && q.mappings == p.mappings && q.functions == p.functions && q.dangling == p.dangling
            && q.clashed == p.clashed
  {
    CloseFrame(p, h);
  }

  lemma MapFrame(p: Proc, f: CString, base: Word64, size: Word64)
    ensures var q := MappingCreate(p, f, base, size);
            && q.clock == p.clock && q.files == p.files && q.live == p.live && q.syscalls == p.syscalls
            && q.strings == p.strings && q.freed == p.freed && q.functions == p.functions && q.dangling == p.dangling
  {
    hide Created, Unshared;
  }

  lemma FinishFrame(p: Proc, sc: Pending, e: Event)
    requires e.Exit?
    ensures var q := Finish(p, sc, e);
            && q.clock == p.clock && q.functions == p.functions && q.syscalls == p.syscalls
            && (if sc.params.MapFileParams? then
                  q.files == p.files && q.live == p.live && q.strings == p.strings && q.freed == p.freed
                else q.mappings == p.mappings && q.dangling == p.dangling && q.clashed == p.clashed)
  {
    hide FileOpen, FileClose, Free, MappingCreate;
    match sc.params
    case FileParams(name) =>
      OpenFrame(p, name, e.ret);
      FreeFrame(p, name);
    case CloseParams(h) => CloseFrame(p, h);
    case MapFileParams(file, _, size, _) =>
      if file in p.live {
        MapFrame(p, Deref(p, p.live[file].name), e.ret, size);
      }
  }

  /** Which tables an exit changes, by the kind of record it completes. */
  lemma ExitFrame(p: Proc, e: Event)
    requires e.Exit?
    ensures var q := ExitStep(p, e);
            && q.clock == p.clock && q.functions == p.functions && q.syscalls == p.syscalls - {e.sp}
            && (e.sp !in p.syscalls || !p.syscalls[e.sp].params.MapFileParams? ==>
                  q.mappings == p.mappings && q.dangling == p.dangling && q.clashed == p.clashed)
            && (e.sp !in p.syscalls || p.syscalls[e.sp].params.MapFileParams? ==>
                  q.files == p.files && q.live == p.live && q.strings == p.strings && q.freed == p.freed)
  {
    hide Finish;
    if e.sp in p.syscalls {
      FinishFrame(p, p.syscalls[e.sp], e);
    } else {
      assert ExitStep(p, e) == p;
    }
  }

  lemma TbFrame(p: Proc, e: Event)
    requires e.BeforeTb?
    ensures var q := TbStep(p, e);
            && q.clock == p.clock && q.files == p.files && q.live == p.live && q.syscalls == p.syscalls
            && q.strings == p.strings && q.freed == p.freed && q.dangling == p.dangling && q.clashed == p.clashed
            && Intervals(q.mappings) == Intervals(p.mappings)
  {
    hide Parse, Record;
  }
}
