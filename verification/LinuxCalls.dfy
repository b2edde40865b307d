/** What a system call does to the tables of its process, call by call, between its enter and its return. */
module LinuxCalls {
  import opened Words
  import opened SearchTree
  import opened LinuxProcess
  import opened LinuxHistory
  import opened LinuxProvenance

  /** Event j is the return of the call that enters at i: between them nothing happens at that stack pointer. */
  ghost predicate Returns(h: History, i: nat, j: nat) {
    && i < j < |h| && h[i].Enter? && h[j].Exit? && h[i].sp == h[j].sp
    && forall k :: i < k < j && !h[k].BeforeTb? ==> h[k].sp != h[j].sp
  }

  /** The results that an open-like call returns as a handle: those that are not negative as a signed word. */
  function FirstNegative(abi: Abi): Word64 {
    match abi case Linux64 => 0x8000_0000_0000_0000 case Linux32 => 0x8000_0000
  }

  lemma OwnRecord(h: History, i: nat, j: nat)
    requires Returns(h, i, j) && Recorded(h, i)
    ensures EnterOf(h, j) == Some(i)
  {
    PendingIsLastRecorded(h, j, h[j].sp, i);
  }

  lemma FilesNext(h: History, j: nat)
    requires j < |h|
    ensures FilesMatch(h, j, Run(h, j)) && FilesMatch(h, j + 1, Run(h, j + 1))
  {
    hide Run;
    RunMatches(h, j);
    RunMatches(h, j + 1);
  }

  /** An open, openat or creat makes its result a handle of a new File unless it is negative, and nothing else. */
  lemma OpenReturns(h: History, i: nat, j: nat)
    requires Returns(h, i, j) && h[i].sc in {Open, Openat, Creat}
    ensures var p, q := Run(h, j).files, Run(h, j + 1).files;
            q == if h[j].ret < FirstNegative(h[j].abi) then p[h[j].ret := j] else p
  {
    hide Run;
    OwnRecord(h, i, j);
    FilesNext(h, j);
  }

  /** A close takes its argument out of the handle table when it returns 0, and nothing else. */
  lemma CloseReturns(h: History, i: nat, j: nat)
    requires Returns(h, i, j) && h[i].sc == Close
    ensures var p, q := Run(h, j).files, Run(h, j + 1).files;
            q == if h[j].ret == 0 then p - {h[i].args.a1} else p
  {
    hide Run;
    OwnRecord(h, i, j);
    FilesNext(h, j);
  }

  /** No other event changes the handle table: not an mmap, not a block, and not an enter of any call. */
  lemma HandlesChangeOnlySo(h: History, j: nat)
    requires j < |h| && Run(h, j + 1).files != Run(h, j).files
    ensures h[j].Exit? && EnterOf(h, j).Some?
    ensures var i := EnterOf(h, j).value;
            && i < j && h[i].Enter? && h[i].sp == h[j].sp
            && ((h[i].sc in {Open, Openat, Creat} && h[j].ret < FirstNegative(h[j].abi))
                || (h[i].sc == Close && h[j].ret == 0))
  {
    hide Run;
    FilesNext(h, j);
    if EnterOf(h, j).Some? {
      PendingIsLastRecorded(h, j, h[j].sp, EnterOf(h, j).value);
    }
  }

  /** Nothing opens or closes handle fd between events i and j. */
  ghost predicate Undisturbed(h: History, i: nat, j: nat, fd: Handle)
    requires j <= |h|
  {
    forall k :: i < k < j ==> !Opens(h, k, fd) && !Closes(h, k, fd)
  }

  /** An open and an mmap of its handle make the path a mapping, at the address that the mmap returned. */
  lemma OpenThenMap(h: History, i: nat, j: nat, m: nat, n: nat)
    requires Returns(h, i, j) && h[i].sc in {Open, Openat, Creat} && h[j].ret < FirstNegative(h[j].abi)
    requires j < m && Returns(h, m, n) && h[m].sc == Mmap && h[m].args.a5 == h[j].ret
    requires Undisturbed(h, j, n, h[j].ret)
    ensures MapCallAt(h, n) ==
            if h[n].abi == Linux64 && h[n].ret == 0xffff_ffff_ffff_ffff then None
            else Some(MapCall(h[i].path, h[n].ret, h[m].args.a2))
  {
    OwnRecord(h, i, j);
    FileIsLastOpened(h, m, h[j].ret, j);
    FileIsLastOpened(h, n, h[j].ret, j);
    OwnRecord(h, m, n);
  }

  /** On 64 bits the result -1 maps nothing; any other result, and any result on 32 bits, maps the path there. */
  lemma MappedAsReturned(h: History, i: nat, j: nat, m: nat, n: nat)
    requires Returns(h, i, j) && h[i].sc in {Open, Openat, Creat} && h[j].ret < FirstNegative(h[j].abi)
    requires j < m && Returns(h, m, n) && h[m].sc == Mmap && h[m].args.a5 == h[j].ret
    requires Undisturbed(h, j, n, h[j].ret) && !Run(h, n + 1).clashed
    ensures var t, u := Intervals(Run(h, n).mappings), Intervals(Run(h, n + 1).mappings);
            var f, base, size := h[i].path, h[n].ret, h[m].args.a2;
            && (h[n].abi == Linux64 && base == 0xffff_ffff_ffff_ffff ==> u == t)
            && (h[n].abi == Linux32 || base != 0xffff_ffff_ffff_ffff ==>
                  f in u && u == t[f := u[f]] && (f !in t ==> u[f] == Key(base, size)))
  {
    hide Run;
    OpenThenMap(h, i, j, m, n);
    NotClashedBefore(h, n, n + 1);
    MappingsFromHistory(h, n);
    MappingsFromHistory(h, n + 1);
  }

  /** An mmap2 is recorded on 32 bits and then ignored: its return only drops the record. */
  lemma Mmap2Returns(h: History, i: nat, j: nat)
    requires Returns(h, i, j) && h[i].sc == Mmap2 && h[i].abi == Linux32 && h[i].args.a5 in Run(h, i).files
    ensures var p := Run(h, j);
            h[j].sp in p.syscalls && Run(h, j + 1) == p.(clock := p.clock + 1, syscalls := p.syscalls - {h[j].sp})
  {
    RunMatches(h, i);
    OwnRecord(h, i, j);
    RunMatches(h, j);
  }

  /** Calls that are not followed leave nothing behind, and do not touch what is pending at their stack pointer. */
  lemma NotFollowed(h: History, i: nat)
    requires i < |h| && h[i].Enter?
    requires || h[i].sc == Untracked || (h[i].sc == Mmap2 && h[i].abi == Linux64)
             || (h[i].sc in {Mmap, Mmap2} && h[i].args.a5 !in Run(h, i).files)
    ensures Run(h, i + 1) == Run(h, i).(clock := Run(h, i).clock + 1)
  {}
}
