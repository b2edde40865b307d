/** Who owns the path strings and File objects of a traced process. */
module LinuxOwnership {
  import opened Words
  import opened LinuxProcess
  import opened LinuxHistory
  import opened LinuxPairing

  /** The pending record at sp owns string id. */
  ghost predicate InPending(p: Proc, sp: Word64, id: nat) {
    sp in p.syscalls && p.syscalls[sp].params == FileParams(At(id))
  }

  /** The File object j owns string id. */
  ghost predicate InFile(p: Proc, j: nat, id: nat) {
    j in p.live && p.live[j].name == At(id)
  }

  /** The handle table and the live File objects are one-to-one. */
  ghost predicate FilesPaired(p: Proc) {
    && (forall fd :: fd in p.files ==> p.files[fd] in p.live && p.live[p.files[fd]].handle == fd)
    && (forall j :: j in p.live ==> p.live[j].handle in p.files && p.files[p.live[j].handle] == j)
  }

  ghost predicate Dated(p: Proc) {
    && (forall id :: id in p.strings ==> id < p.clock)
    && (forall j :: j in p.live ==> j < p.clock)
    && (forall i :: 0 <= i < |p.freed| ==> p.freed[i] < p.clock)
  }

  /** No string is freed twice, and none that is still allocated has been freed. */
  ghost predicate FreedOnce(p: Proc) {
    && (forall i, j :: 0 <= i < j < |p.freed| ==> p.freed[i] != p.freed[j])
    && (forall i :: 0 <= i < |p.freed| ==> p.freed[i] !in p.strings)
  }

  /** Every owner owns an allocated string, and no string has two owners. */
  ghost predicate OwnedOnce(p: Proc) {
    && (forall sp, id :: InPending(p, sp, id) ==> id in p.strings)
    && (forall j, id :: InFile(p, j, id) ==> id in p.strings)
    && (forall sp, sp', id :: InPending(p, sp, id) && InPending(p, sp', id) ==> sp == sp')
    && (forall j, j', id :: InFile(p, j, id) && InFile(p, j', id) ==> j == j')
    && (forall sp, j, id :: InPending(p, sp, id) ==> !InFile(p, j, id))
  }

  /** Only the calls that take a path leave a path record. */
  ghost predicate Typed(p: Proc) {
    forall sp :: sp in p.syscalls && p.syscalls[sp].params.FileParams? ==> OpenLike(p.syscalls[sp].num)
  }

  ghost predicate Sound(p: Proc) {
    FilesPaired(p) && Dated(p) && FreedOnce(p) && OwnedOnce(p) && Typed(p)
  }

  /** Allocated, but neither pending nor owned by a File: nothing will ever free it. */
  ghost predicate Lost(p: Proc, id: nat) {
    id in p.strings && (forall sp :: !InPending(p, sp, id)) && (forall j :: !InFile(p, j, id))
  }

  /** The string that event e loses: the path of a pending record it overwrites. */
  ghost predicate Overwrites(p: Proc, e: Event, id: nat) {
    e.Enter? && EnterParams(p, e).Some? && InPending(p, e.sp, id)
  }

  // ----- the steps -----

  lemma PendingSound(p: Proc, sp: Word64, r: Pending)
    requires Sound(p) && (r.params.FileParams? ==> r.params.name == NullPtr && OpenLike(r.num))
    ensures var p' := Tick(p.(syscalls := p.syscalls[sp := r]));
            Sound(p') && forall id :: Lost(p', id) <==> Lost(p, id) || InPending(p, sp, id)
  {
    var p' := Tick(p.(syscalls := p.syscalls[sp := r]));
    assert forall x, id :: InPending(p', x, id) <==> InPending(p, x, id) && x != sp;
    assert forall j, id :: InFile(p', j, id) <==> InFile(p, j, id);
  }

  lemma PathSound(p: Proc, sp: Word64, num: Sys, bytes: seq<Byte>)
    requires Sound(p) && OpenLike(num)
    ensures var p' := Tick(p.(strings := p.strings[p.clock := bytes],
                              syscalls := p.syscalls[sp := Pending(num, FileParams(At(p.clock)))]));
            Sound(p') && forall id :: Lost(p', id) <==> Lost(p, id) || InPending(p, sp, id)
  {
    var p' := Tick(p.(strings := p.strings[p.clock := bytes],
                      syscalls := p.syscalls[sp := Pending(num, FileParams(At(p.clock)))]));
    assert forall x, id :: InPending(p', x, id) <==> if x == sp then id == p.clock else InPending(p, x, id);
    assert forall j, id :: InFile(p', j, id) <==> InFile(p, j, id);
    assert p.clock !in p.strings;
  }

  lemma EnterSound(p: Proc, e: Event)
    requires Sound(p) && e.Enter?
    ensures Sound(Tick(EnterStep(p, e)))
    ensures forall id :: Lost(Tick(EnterStep(p, e)), id) <==> Lost(p, id) || Overwrites(p, e, id)
  {
    var r := EnterParams(p, e);
    if e.sc != Execve && r.Some? {
      if e.path.Text? && OpenLike(e.sc) {
        PathSound(p, e.sp, e.sc, e.path.bytes);
      } else {
        PendingSound(p, e.sp, Pending(e.sc, r.value));
      }
    } else {
      NothingPending(p, e);
    }
  }

  lemma NothingPending(p: Proc, e: Event)
    requires Sound(p) && e.Enter? && (e.sc == Execve || EnterParams(p, e).None?)
    ensures Sound(Tick(EnterStep(p, e)))
    ensures forall id :: Lost(Tick(EnterStep(p, e)), id) <==> Lost(p, id)
  {
    if e.sc == Execve && e.path.Text? {
      assert p.clock !in p.strings;
      FreedAtOnce(p);
      FrameSound(Tick(p.(freed := p.freed + [p.clock])), Tick(EnterStep(p, e)));
    } else {
      FrameSound(p, Tick(EnterStep(p, e)));
    }
  }

  lemma FreedAtOnce(p: Proc)
    requires Sound(p)
    ensures var q := Tick(p.(freed := p.freed + [p.clock]));
            Sound(q) && forall id :: Lost(q, id) <==> Lost(p, id)
  {
    var q := Tick(p.(freed := p.freed + [p.clock]));
    assert forall x, id :: InPending(q, x, id) <==> InPending(p, x, id);
    assert forall j, id :: InFile(q, j, id) <==> InFile(p, j, id);
  }

  lemma CloseOwners(p: Proc, h: Handle)
    requires Sound(p)
    ensures var q := FileClose(p, h);
            && (forall sp, id :: InPending(q, sp, id) <==> InPending(p, sp, id))
            && (forall x, id :: InFile(q, x, id) <==> InFile(p, x, id) && !(h in p.files && x == p.files[h]))
            && (forall id :: id in q.strings <==> id in p.strings && !(h in p.files && InFile(p, p.files[h], id)))
  {
    if h in p.files {
      var j := p.files[h];
      assert forall id :: InFile(p, j, id) <==> p.live[j].name == At(id);
    }
  }

  lemma CloseSound(p: Proc, h: Handle)
    requires Sound(p)
    ensures var q := FileClose(p, h);
            && Sound(q) && h !in q.files && q.syscalls == p.syscalls && q.clock == p.clock
            && forall id :: Lost(q, id) <==> Lost(p, id)
  {
    hide FileOpen;
    CloseOwners(p, h);
    CloseFrame(p, h);
    if h in p.files && p.live[p.files[h]].name.At? {
      assert InFile(p, p.files[h], p.live[p.files[h]].name.id);
    }
  }

  /** The failed open: its path is freed and its record erased. */
  function Release(p: Proc, sp: Word64): Proc
    requires sp in p.syscalls && p.syscalls[sp].params.FileParams?
  {
    Free(p, p.syscalls[sp].params.name).(syscalls := p.syscalls - {sp})
  }

  lemma ReleaseOwners(p: Proc, sp: Word64)
    requires Sound(p) && sp in p.syscalls && p.syscalls[sp].params.FileParams?
    ensures var q := Release(p, sp);
            && (forall x, id :: InPending(q, x, id) <==> InPending(p, x, id) && x != sp)
            && (forall j, id :: InFile(q, j, id) <==> InFile(p, j, id))
            && (forall id :: id in q.strings <==> id in p.strings && !InPending(p, sp, id))
  {
    assert forall id :: InPending(p, sp, id) <==> p.syscalls[sp].params.name == At(id);
  }

  lemma ReleaseSound(p: Proc, sp: Word64)
    requires Sound(p) && sp in p.syscalls && p.syscalls[sp].params.FileParams?
    ensures Sound(Release(p, sp)) && forall id :: Lost(Release(p, sp), id) <==> Lost(p, id)
  {
    ReleaseOwners(p, sp);
    var name := p.syscalls[sp].params.name;
    FreeFrame(p, name);
    assert name.At? ==> InPending(p, sp, name.id);
  }

  /** The successful open: the path passes from the record to a new File. */
  lemma TransferSound(p: Proc, sp: Word64, h: Handle)
    requires Sound(p) && sp in p.syscalls && p.syscalls[sp].params.FileParams? && h !in p.files
    ensures var q := Tick(p.(files := p.files[h := p.clock],
                             live := p.live[p.clock := File(h, p.syscalls[sp].params.name)],
                             syscalls := p.syscalls - {sp}));
            Sound(q) && forall id :: Lost(q, id) <==> Lost(p, id)
  {
    var name := p.syscalls[sp].params.name;
    var q := Tick(p.(files := p.files[h := p.clock], live := p.live[p.clock := File(h, name)],
                     syscalls := p.syscalls - {sp}));
    assert forall x, id :: InPending(q, x, id) <==> InPending(p, x, id) && x != sp;
    assert forall j, id :: InFile(q, j, id) <==> if j == p.clock then name == At(id) else InFile(p, j, id);
    assert p.clock !in p.live && (name.At? ==> InPending(p, sp, name.id));
    forall id
      ensures Lost(q, id) <==> Lost(p, id)
    {
      if name == At(id) {
        assert InPending(p, sp, id) && InFile(q, p.clock, id);
      } else {
        assert forall x :: InPending(q, x, id) <==> InPending(p, x, id);
        assert forall j :: InFile(q, j, id) <==> InFile(p, j, id);
      }
    }
  }

  /** Any exit that only erases a record without a path. */
  lemma EraseSound(p: Proc, sp: Word64)
    requires Sound(p) && (sp in p.syscalls ==> !p.syscalls[sp].params.FileParams?)
    ensures var q := p.(syscalls := p.syscalls - {sp});
            Sound(q) && forall id :: Lost(q, id) <==> Lost(p, id)
  {
    var q := p.(syscalls := p.syscalls - {sp});
    assert forall x, id :: InPending(q, x, id) <==> InPending(p, x, id);
    assert forall j, id :: InFile(q, j, id) <==> InFile(p, j, id);
  }

  /** Ownership looks at nothing else. */
  lemma FrameSound(p: Proc, q: Proc)
    requires Sound(p) && q.strings == p.strings && q.freed == p.freed && q.live == p.live && q.files == p.files
    requires q.syscalls == p.syscalls && q.clock >= p.clock
    ensures Sound(q) && forall id :: Lost(q, id) <==> Lost(p, id)
  {
    assert forall x, id :: InPending(q, x, id) <==> InPending(p, x, id);
    assert forall j, id :: InFile(q, j, id) <==> InFile(p, j, id);
  }

  lemma OpenExitSound(p: Proc, e: Event)
    requires Sound(p) && e.Exit? && e.sp in p.syscalls && p.syscalls[e.sp].params.FileParams?
    ensures Sound(Tick(ExitStep(p, e)))
    ensures forall id :: Lost(Tick(ExitStep(p, e)), id) <==> Lost(p, id)
  {
    if OpenOk(e.abi, e.ret) {
      CloseSound(p, e.ret);
      TransferSound(FileClose(p, e.ret), e.sp, e.ret);
    } else {
      ReleaseSound(p, e.sp);
      FrameSound(Release(p, e.sp), Tick(ExitStep(p, e)));
    }
  }

  lemma CloseExitSound(p: Proc, e: Event)
    requires Sound(p) && e.Exit? && e.sp in p.syscalls && p.syscalls[e.sp].params.CloseParams?
    ensures Sound(Tick(ExitStep(p, e)))
    ensures forall id :: Lost(Tick(ExitStep(p, e)), id) <==> Lost(p, id)
  {
    hide Sound, Lost, Finish, FileClose;
    var r := p.syscalls[e.sp];
    CloseFinish(p, r, e);
    CloseSound(p, r.params.handle);
    EraseSound(Finish(p, r, e), e.sp);
    FrameSound(Finish(p, r, e).(syscalls := p.syscalls - {e.sp}), Tick(ExitStep(p, e)));
  }

  lemma CloseFinish(p: Proc, r: Pending, e: Event)
    requires e.Exit? && r.params.CloseParams?
    ensures Finish(p, r, e) == if r.num == Close && e.ret == 0 then FileClose(p, r.params.handle) else p
  {
    hide FileClose;
  }

  /** The other exits only erase their record. */
  lemma MapExitSound(p: Proc, e: Event)
    requires Sound(p) && e.Exit? && (e.sp in p.syscalls ==> p.syscalls[e.sp].params.MapFileParams?)
    ensures Sound(Tick(ExitStep(p, e)))
    ensures forall id :: Lost(Tick(ExitStep(p, e)), id) <==> Lost(p, id)
  {
    hide Sound, Lost, Finish, ExitStep;
    EraseSound(p, e.sp);
    ExitFrame(p, e);
    FrameSound(p.(syscalls := p.syscalls - {e.sp}), Tick(ExitStep(p, e)));
  }

  lemma ExitSound(p: Proc, e: Event)
    requires Sound(p) && e.Exit?
    ensures Sound(Tick(ExitStep(p, e)))
    ensures forall id :: Lost(Tick(ExitStep(p, e)), id) <==> Lost(p, id)
  {
    hide Sound, Lost, Finish, ExitStep;
    if e.sp !in p.syscalls || p.syscalls[e.sp].params.MapFileParams? {
      MapExitSound(p, e);
    } else if p.syscalls[e.sp].params.FileParams? {
      OpenExitSound(p, e);
    } else {
      CloseExitSound(p, e);
    }
  }

  // ----- whole runs -----

  /** Each string has at most one owner and is freed at most once; only overwriting a pending path loses a string. */
  lemma {:induction false} StepSound(p: Proc, e: Event)
    requires Sound(p)
    ensures Sound(Step(p, e))
    ensures forall id :: Lost(Step(p, e), id) <==> Lost(p, id) || Overwrites(p, e, id)
  {
    match e
    case Enter(_, _, _, _, _) => EnterSound(p, e);
    case Exit(_, _, _) => ExitSound(p, e);
    case BeforeTb(_, _, _) => FrameSound(p, Step(p, e));
  }

  lemma {:induction false} RunSound(h: History, n: nat)
    requires n <= |h|
    ensures Sound(Run(h, n))
    decreases n
  {
    if n > 0 {
      RunSound(h, n - 1);
      StepSound(Run(h, n - 1), h[n - 1]);
    }
  }

  /** Event k loses string id. */
  ghost predicate LosesAt(h: History, k: nat, id: nat)
    requires k < |h|
  {
    Overwrites(Run(h, k), h[k], id)
  }

  lemma LostNext(h: History, k: nat, id: nat)
    requires k < |h|
    ensures Lost(Run(h, k + 1), id) <==> Lost(Run(h, k), id) || LosesAt(h, k, id)
  {
    RunSound(h, k);
    StepSound(Run(h, k), h[k]);
  }

  lemma {:induction false} LostHasCause(h: History, n: nat, id: nat) returns (k: nat)
    requires n <= |h| && Lost(Run(h, n), id)
    ensures k < n && LosesAt(h, k, id)
    decreases n
  {
    hide LosesAt, Step;
    if n == 0 {
      assert false;
    } else {
      LostNext(h, n - 1, id);
      if Lost(Run(h, n - 1), id) {
        k := LostHasCause(h, n - 1, id);
      } else {
        k := n - 1;
      }
    }
  }

  lemma {:induction false} LostStays(h: History, k: nat, n: nat, id: nat)
    requires k < n <= |h| && LosesAt(h, k, id)
    ensures Lost(Run(h, n), id)
    decreases n
  {
    hide Lost, LosesAt, Step;
    LostNext(h, n - 1, id);
    if k < n - 1 {
      LostStays(h, k, n - 1, id);
    }
  }

  /** After a run a string is lost exactly when an enter overwrote the pending record that held it. */
  lemma LostExactly(h: History, n: nat, id: nat)
    requires n <= |h|
    ensures Lost(Run(h, n), id) <==> exists k: nat :: k < n && LosesAt(h, k, id)
  {
    hide Lost, LosesAt, Run;
    if Lost(Run(h, n), id) {
      var _ := LostHasCause(h, n, id);
    }
    if k: nat :| k < n && LosesAt(h, k, id) {
      LostStays(h, k, n, id);
    }
  }

  /**
   With one outstanding call per stack pointer no string is ever lost: each is pending, owned by a live File, or
   freed.
   */
  lemma NoneLost(h: History, n: nat, id: nat)
    requires Alternates(h) && n <= |h|
    ensures !Lost(Run(h, n), id)
    ensures id < n && Allocates(h[id]) ==>
              || id in Run(h, n).freed
              || (exists sp :: InPending(Run(h, n), sp, id))
              || (exists j :: InFile(Run(h, n), j, id))
  {
    StringsConserved(h, n, id);
    if Lost(Run(h, n), id) {
      var k := LostHasCause(h, n, id);
      RunMatches(h, k);
      PendingWhenAlternating(h, k, h[k].sp);
    }
  }

  /** Two enters at one stack pointer: the path of the first is lost. */
  lemma LostExample()
    ensures var h := [Enter(16, Linux64, Open, Args(0, 0, 0, 0), Text([97])),
                      Enter(16, Linux64, Open, Args(0, 0, 0, 0), Text([98]))];
            LosesAt(h, 1, 0) && Lost(Run(h, 2), 0)
  {
    var h := [Enter(16, Linux64, Open, Args(0, 0, 0, 0), Text([97])),
              Enter(16, Linux64, Open, Args(0, 0, 0, 0), Text([98]))];
    var p := Run(h, 1);
    assert p == Step(Run(h, 0), h[0]) && p.syscalls[16] == Pending(Open, FileParams(At(0)));
    assert InPending(p, 16, 0);
    LostStays(h, 1, 2, 0);
  }

  /** Event i allocates a path string. */
  predicate Allocates(e: Event) {
    e.Enter? && e.path.Text? && e.sc in {Open, Openat, Creat, Execve}
  }

  /** The string is still allocated, or it has been freed. */
  ghost predicate Known(p: Proc, id: nat) {
    id in p.strings || id in p.freed
  }

  lemma CloseStrings(p: Proc, h: Handle, id: nat)
    requires Sound(p)
    ensures var q := FileClose(p, h);
            && (Known(q, id) <==> Known(p, id))
            && (id in q.strings ==> id in p.strings && q.strings[id] == p.strings[id])
  {
    if h in p.files && p.live[p.files[h]].name.At? {
      assert InFile(p, p.files[h], p.live[p.files[h]].name.id);
    }
  }

  lemma ExitStrings(p: Proc, e: Event, id: nat)
    requires Sound(p) && e.Exit?
    ensures var q := ExitStep(p, e);
            && (Known(q, id) <==> Known(p, id))
            && (id in q.strings ==> id in p.strings && q.strings[id] == p.strings[id])
  {
    hide FileClose, MappingCreate;
    if e.sp in p.syscalls {
      match p.syscalls[e.sp].params
      case FileParams(name) =>
        if name.At? && !OpenOk(e.abi, e.ret) {
          assert InPending(p, e.sp, name.id);
        }
        CloseStrings(p, e.ret, id);
      case CloseParams(fd) => CloseStrings(p, fd, id);
      case MapFileParams(_, _, _, _) => FinishFrame(p, p.syscalls[e.sp], e);
    }
  }

  lemma EnterStrings(p: Proc, e: Event, id: nat)
    requires Sound(p) && e.Enter?
    ensures var q := EnterStep(p, e);
            && (Known(q, id) <==> Known(p, id) || (id == p.clock && Allocates(e)))
            && (id in q.strings ==> if id == p.clock then e.path == Text(q.strings[id])
                                    else id in p.strings && q.strings[id] == p.strings[id])
  {
    EnterAllocates(p, e);
  }

  lemma AllocateStrings(p: Proc, path: CString)
    requires p.clock !in p.strings
    ensures var q := Allocate(p, path);
            && q.strings == (if path.Text? then p.strings[p.clock := path.bytes] else p.strings) && q.freed == p.freed
    ensures var q := Free(Allocate(p, path), NewName(p, path));
            && q.strings == p.strings && q.freed == if path.Text? then p.freed + [p.clock] else p.freed
  {
    if path.Text? {
      assert p.strings[p.clock := path.bytes] - {p.clock} == p.strings;
    }
  }

  lemma EnterAllocates(p: Proc, e: Event)
    requires Sound(p) && e.Enter?
    ensures var q := EnterStep(p, e);
            && q.strings == (if e.path.Text? && OpenLike(e.sc) then p.strings[p.clock := e.path.bytes] else p.strings)
            && q.freed == (if e.path.Text? && e.sc == Execve then p.freed + [p.clock] else p.freed)
  {
    hide EnterParams, Allocate, Free, FreedOnce, OwnedOnce, FilesPaired, Typed;
    AllocateStrings(p, e.path);
  }

  lemma StepStrings(p: Proc, e: Event, id: nat)
    requires Sound(p)
    ensures var q := Step(p, e);
            && q.clock == p.clock + 1
            && (Known(q, id) <==> Known(p, id) || (id == p.clock && Allocates(e)))
            && (id in q.strings ==> (id == p.clock && e.Enter? && e.path == Text(q.strings[id]))
                                    || (id in p.strings && q.strings[id] == p.strings[id]))
  {
    match e
    case Enter(_, _, _, _, _) =>
      EnterStrings(p, e, id);
      EnterFrame(p, e);
    case Exit(_, _, _) =>
      ExitStrings(p, e, id);
      ExitFrame(p, e);
    case BeforeTb(_, _, _) => TbFrame(p, e);
  }

  /** Conservation: every path string allocated so far is still allocated, with its text, or has been freed. */
  lemma {:induction false} StringsConserved(h: History, n: nat, id: nat)
    requires n <= |h|
    ensures Run(h, n).clock == n
    ensures Known(Run(h, n), id) <==> id < n && Allocates(h[id])
    ensures id in Run(h, n).strings ==> id < n && h[id].Enter? && h[id].path == Text(Run(h, n).strings[id])
    decreases n
  {
    hide Sound, Step;
    if n > 0 {
      hide Known, Allocates;
      var p := Run(h, n - 1);
      StringsConserved(h, n - 1, id);
      RunSound(h, n - 1);
      StepStrings(p, h[n - 1], id);
      assert Run(h, n) == Step(p, h[n - 1]);
    }
  }
}
