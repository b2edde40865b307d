/** The tables of a traced process as functions of the history of its events. */
module LinuxHistory {
  import opened Words
  import opened LinuxProcess

  // ----- which enter an exit completes, and which exit opened a handle -----

  /** The enter that is pending at stack pointer sp before event n. */
  ghost function PendingAt(h: History, n: nat, sp: Word64): Option<nat>
    requires n <= |h|
    decreases n, 0
  {
    if n == 0 then None
    else if h[n - 1].Exit? && h[n - 1].sp == sp then None
    else if h[n - 1].Enter? && h[n - 1].sp == sp && Recorded(h, n - 1) then Some(n - 1)
    else PendingAt(h, n - 1, sp)
  }

  /** The enter at i leaves a record in the pending table. */
  ghost predicate Recorded(h: History, i: nat)
    requires i < |h|
    decreases i, 1
  {
    && h[i].Enter?
    && (h[i].sc in {Open, Openat, Creat, Close}
        || ((h[i].sc == Mmap || (h[i].sc == Mmap2 && h[i].abi == Linux32)) && FileAt(h, i, h[i].args.a5).Some?))
  }

  /** The enter that event j completes. */
  ghost function EnterOf(h: History, j: nat): Option<nat>
    requires j < |h|
    decreases j, 1
  {
    if h[j].Exit? then PendingAt(h, j, h[j].sp) else None
  }

  /** With i as the enter it completes, event j is the exit of an open, openat or creat with result fd, not negative. */
  ghost predicate OpensVia(h: History, j: nat, fd: Handle, i: Option<nat>)
    requires j < |h|
  {
    && i.Some? && i.value < j && h[i.value].Enter? && h[i.value].sc in {Open, Openat, Creat}
    && h[j].Exit? && h[j].ret == fd
    && fd < match h[j].abi case Linux64 => 0x8000_0000_0000_0000 case Linux32 => 0x8000_0000
  }

  /** With i as the enter it completes, event j is the successful exit of a close of fd. */
  ghost predicate ClosesVia(h: History, j: nat, fd: Handle, i: Option<nat>)
    requires j < |h|
  {
    && i.Some? && i.value < j && h[i.value].Enter? && h[i.value].sc == Close && h[i.value].args.a1 == fd
    && h[j].Exit? && h[j].ret == 0
  }

  /** The exit that made handle fd what it is before event n, if it is open. */
  ghost function FileAt(h: History, n: nat, fd: Handle): Option<nat>
    requires n <= |h|
    decreases n, 0
  {
    if n == 0 then None
    else if OpensVia(h, n - 1, fd, EnterOf(h, n - 1)) then Some(n - 1)
    else if ClosesVia(h, n - 1, fd, EnterOf(h, n - 1)) then None
    else FileAt(h, n - 1, fd)
  }

  ghost predicate Opens(h: History, j: nat, fd: Handle)
    requires j < |h|
  {
    OpensVia(h, j, fd, EnterOf(h, j))
  }

  ghost predicate Closes(h: History, j: nat, fd: Handle)
    requires j < |h|
  {
    ClosesVia(h, j, fd, EnterOf(h, j))
  }

  /** An event at stack pointer sp that replaces or removes what is pending there. */
  ghost predicate Touches(h: History, k: nat, sp: Word64)
    requires k < |h|
  {
    (h[k].Exit? && h[k].sp == sp) || (h[k].Enter? && h[k].sp == sp && Recorded(h, k))
  }

  /** Pending is the last recorded enter at sp with no exit there since. */
  lemma {:induction false} PendingIsLastRecorded(h: History, n: nat, sp: Word64, i: nat)
    requires n <= |h|
    ensures PendingAt(h, n, sp) == Some(i) <==>
            i < n && h[i].Enter? && h[i].sp == sp && Recorded(h, i) && forall k :: i < k < n ==> !Touches(h, k, sp)
    decreases n
  {
    if n > 0 {
      PendingIsLastRecorded(h, n - 1, sp, i);
      assert Touches(h, n - 1, sp) ==> i >= n - 1 || PendingAt(h, n, sp) != Some(i);
    }
  }

  /** A handle is open exactly when some exit opened it and no later exit opened or closed it. */
  lemma {:induction false} FileIsLastOpened(h: History, n: nat, fd: Handle, j: nat)
    requires n <= |h|
    ensures FileAt(h, n, fd) == Some(j) <==>
            j < n && Opens(h, j, fd) && forall k :: j < k < n ==> !Opens(h, k, fd) && !Closes(h, k, fd)
    decreases n
  {
    if n > 0 {
      FileIsLastOpened(h, n - 1, fd, j);
      assert Opens(h, n - 1, fd) || Closes(h, n - 1, fd) || FileAt(h, n, fd) == FileAt(h, n - 1, fd);
    }
  }

  // ----- the state after a run -----

  /** The pointer to the path that the enter at i has read. */
  ghost function NameOf(h: History, i: nat): Ptr
    requires i < |h| && h[i].Enter?
  {
    if h[i].path.Null? then NullPtr else At(i)
  }

  /** The record that the enter at i leaves. */
  ghost function RecordOf(h: History, i: nat): Pending
    requires i < |h| && Recorded(h, i)
  {
    var e := h[i];
    Pending(e.sc,
            if e.sc in {Open, Openat, Creat} then FileParams(NameOf(h, i))
            else if e.sc == Close then CloseParams(e.args.a1)
            else MapFileParams(FileAt(h, i, e.args.a5).value, e.args.a1, e.args.a2, e.args.a6))
  }

  ghost predicate PendingMatches(h: History, n: nat, p: Proc)
    requires n <= |h|
  {
    && (forall sp :: sp in p.syscalls <==> PendingAt(h, n, sp).Some?)
    && (forall sp :: sp in p.syscalls ==>
                       var i := PendingAt(h, n, sp).value;
                       i < n && Recorded(h, i) && p.syscalls[sp] == RecordOf(h, i))
  }

  ghost predicate FilesMatch(h: History, n: nat, p: Proc)
    requires n <= |h|
  {
    && (forall fd :: fd in p.files <==> FileAt(h, n, fd).Some?)
    && (forall fd :: fd in p.files ==> p.files[fd] == FileAt(h, n, fd).value)
  }

  lemma PendingAfter(p: Proc, e: Event)
    ensures Step(p, e).syscalls ==
            match e
            case Enter(sp, _, sc, _, _) =>
              (match EnterParams(p, e) case None => p.syscalls case Some(r) => p.syscalls[sp := Pending(sc, r)])
            case Exit(sp, _, _) => p.syscalls - {sp}
            case BeforeTb(_, _, _) => p.syscalls
  {
    hide ExitStep, TbStep, Allocate, Free;
    match e
    case Enter(_, _, sc, _, path) =>
      AllocateFrame(p, path);
      FreeFrame(Allocate(p, path), NewName(p, path));
    case Exit(_, _, _) => ExitFrame(p, e);
    case BeforeTb(_, _, _) => TbFrame(p, e);
  }

  lemma {:induction false} StepKeepsPending(h: History, n: nat)
    requires 0 < n <= |h| && PendingMatches(h, n - 1, Run(h, n - 1)) && FilesMatch(h, n - 1, Run(h, n - 1))
    requires Run(h, n - 1).clock == n - 1
    ensures PendingMatches(h, n, Run(h, n))
  {
    hide Step;
    var p, e := Run(h, n - 1), h[n - 1];
    PendingAfter(p, e);
    if e.Enter? {
      assert Recorded(h, n - 1) <==> EnterParams(p, e).Some?;
      assert Recorded(h, n - 1) ==> RecordOf(h, n - 1) == Pending(e.sc, EnterParams(p, e).value);
    }
  }

  lemma FilesAfter(p: Proc, e: Event)
    ensures Step(p, e).files ==
            if e.Exit? && e.sp in p.syscalls then
              (match p.syscalls[e.sp]
               case Pending(num, FileParams(_)) =>
                 if OpenLike(num) && OpenOk(e.abi, e.ret) then p.files[e.ret := p.clock] else p.files
               case Pending(num, CloseParams(fd)) => if num == Close && e.ret == 0 then p.files - {fd} else p.files
               case _ => p.files)
            else p.files
  {
    match e
    case Enter(_, _, _, _, _) => EnterFrame(p, e);
    case Exit(_, _, _) => ExitFiles(p, e);
    case BeforeTb(_, _, _) => TbFrame(p, e);
  }

  lemma ExitFiles(p: Proc, e: Event)
    requires e.Exit?
    ensures ExitStep(p, e).files ==
            if e.sp in p.syscalls then
              (match p.syscalls[e.sp]
               case Pending(num, FileParams(_)) =>
                 if OpenLike(num) && OpenOk(e.abi, e.ret) then p.files[e.ret := p.clock] else p.files
               case Pending(num, CloseParams(fd)) => if num == Close && e.ret == 0 then p.files - {fd} else p.files
               case _ => p.files)
            else p.files
  {
    if e.sp in p.syscalls {
      match p.syscalls[e.sp].params
      case FileParams(name) =>
        CloseFrame(p, e.ret);
        FreeFrame(p, name);
        assert (p.files - {e.ret})[e.ret := p.clock] == p.files[e.ret := p.clock];
      case CloseParams(fd) => CloseFrame(p, fd);
      case MapFileParams(_, _, _, _) =>
    }
  }

  /** What the exit at j finds pending is what the enter it completes recorded. */
  lemma ExitRecord(h: History, j: nat, p: Proc)
    requires j < |h| && h[j].Exit? && PendingMatches(h, j, p)
    ensures h[j].sp in p.syscalls <==> EnterOf(h, j).Some?
    ensures EnterOf(h, j).Some? ==>
              var i := EnterOf(h, j).value;
              i < j && Recorded(h, i) && p.syscalls[h[j].sp] == RecordOf(h, i)
  {}

  lemma {:induction false} StepKeepsFiles(h: History, n: nat)
    requires 0 < n <= |h| && PendingMatches(h, n - 1, Run(h, n - 1)) && FilesMatch(h, n - 1, Run(h, n - 1))
    requires Run(h, n - 1).clock == n - 1
    ensures FilesMatch(h, n, Run(h, n))
  {
    var j := n - 1;
    if h[j].Exit? {
      ExitRecord(h, j, Run(h, j));
    }
    hide PendingMatches, PendingAt, Step;
    FilesAfter(Run(h, j), h[j]);
  }

  lemma {:induction false} ClockCounts(h: History, n: nat)
    requires n <= |h|
    ensures Run(h, n).clock == n
    decreases n
  {
    if n > 0 {
      ClockCounts(h, n - 1);
      StepTicks(Run(h, n - 1), h[n - 1]);
    }
  }

  lemma StepTicks(p: Proc, e: Event)
    ensures Step(p, e).clock == p.clock + 1
  {
    match e
    case Enter(_, _, _, _, _) => EnterFrame(p, e);
    case Exit(_, _, _) => ExitFrame(p, e);
    case BeforeTb(_, _, _) => TbFrame(p, e);
  }

  lemma StartMatches(h: History)
    ensures PendingMatches(h, 0, Run(h, 0)) && FilesMatch(h, 0, Run(h, 0))
  {}

  /** The pending table and the handle table after a run are the ones its history describes. */
  lemma {:induction false} RunMatches(h: History, n: nat)
    requires n <= |h|
    ensures PendingMatches(h, n, Run(h, n)) && FilesMatch(h, n, Run(h, n))
    decreases n
  {
    hide PendingMatches, FilesMatch, Run, Step;
    if n == 0 {
      StartMatches(h);
    } else {
      RunMatches(h, n - 1);
      ClockCounts(h, n - 1);
      StepKeepsPending(h, n);
      StepKeepsFiles(h, n);
    }
  }
}
