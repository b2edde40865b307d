/** Which enter an exit processes. */
module LinuxPairing {
  import opened Words
  import opened LinuxProcess
  import opened LinuxHistory

  /** The last system call event, enter or exit, at stack pointer sp before event n. */
  ghost function LastAt(h: History, n: nat, sp: Word64): Option<nat>
    requires n <= |h|
  {
    if n == 0 then None
    else if !h[n - 1].BeforeTb? && h[n - 1].sp == sp then Some(n - 1)
    else LastAt(h, n - 1, sp)
  }

  /** A stack pointer serves one system call at a time: every exit follows an enter there, every enter an exit. */
  ghost predicate Alternates(h: History) {
    forall j: nat :: j < |h| && !h[j].BeforeTb? ==>
                       match LastAt(h, j, h[j].sp)
                       case None => h[j].Enter?
                       case Some(i) => i < j && (h[j].Enter? <==> h[i].Exit?)
  }

  lemma {:induction false} LastIsBefore(h: History, n: nat, sp: Word64)
    requires n <= |h|
    ensures LastAt(h, n, sp).Some? ==>
              var i := LastAt(h, n, sp).value;
              i < n && !h[i].BeforeTb? && h[i].sp == sp
    decreases n
  {
    if n > 0 {
      LastIsBefore(h, n - 1, sp);
    }
  }

  /** What is pending at sp was left by the last event there, or the last event there was an enter that left nothing. */
  lemma {:induction false} PendingSinceLast(h: History, n: nat, sp: Word64)
    requires n <= |h|
    ensures match LastAt(h, n, sp)
            case None => PendingAt(h, n, sp).None?
            case Some(i) =>
              i < n && PendingAt(h, n, sp) == if h[i].Exit? then None
                                              else if Recorded(h, i) then Some(i)
                                              else PendingAt(h, i, sp)
    decreases n
  {
    if n > 0 {
      PendingSinceLast(h, n - 1, sp);
      LastIsBefore(h, n, sp);
    }
  }

  /**
   An exit whose last event at its stack pointer was enter i processes what that enter recorded, if it
   recorded anything and nothing otherwise, exactly when i recorded or nothing older was pending there.
   */
  lemma OwnEnterExactly(h: History, j: nat, i: nat)
    requires j < |h| && h[j].Exit? && LastAt(h, j, h[j].sp) == Some(i) && i < j && h[i].Enter?
    ensures EnterOf(h, j) == (if Recorded(h, i) then Some(i) else None) <==>
            Recorded(h, i) || PendingAt(h, i, h[j].sp).None?
  {
    PendingSinceLast(h, j, h[j].sp);
  }

  /** An untracked enter at a stack pointer in use lets its exit process the older record. */
  lemma StaleRecordExample()
    ensures var h := [Enter(16, Linux64, Open, Args(0, 0, 0, 0), Null),
                      Enter(16, Linux64, Untracked, Args(0, 0, 0, 0), Null),
                      Exit(16, Linux64, 3)];
            LastAt(h, 2, 16) == Some(1) && EnterOf(h, 2) == Some(0)
  {
    var h := [Enter(16, Linux64, Open, Args(0, 0, 0, 0), Null),
              Enter(16, Linux64, Untracked, Args(0, 0, 0, 0), Null),
              Exit(16, Linux64, 3)];
    assert Recorded(h, 0) && !Recorded(h, 1);
    assert PendingAt(h, 1, 16) == Some(0);
    assert PendingAt(h, 2, 16) == Some(0);
  }

  lemma {:induction false} PendingWhenAlternating(h: History, n: nat, sp: Word64)
    requires Alternates(h) && n <= |h|
    ensures PendingAt(h, n, sp) ==
            match LastAt(h, n, sp)
            case Some(i) => if i < n && h[i].Enter? && Recorded(h, i) then Some(i) else None
            case None => None
    decreases n
  {
    PendingSinceLast(h, n, sp);
    LastIsBefore(h, n, sp);
    if LastAt(h, n, sp).Some? {
      var i := LastAt(h, n, sp).value;
      if h[i].Enter? {
        PendingWhenAlternating(h, i, sp);
        LastIsBefore(h, i, sp);
      }
    }
  }

  /** With alternating events every exit processes exactly the record of its own enter. */
  lemma ExitProcessesOwnEnter(h: History, j: nat)
    requires Alternates(h) && j < |h| && h[j].Exit?
    ensures LastAt(h, j, h[j].sp).Some? && LastAt(h, j, h[j].sp).value < j && h[LastAt(h, j, h[j].sp).value].Enter?
    ensures var i := LastAt(h, j, h[j].sp).value;
            && EnterOf(h, j) == (if Recorded(h, i) then Some(i) else None)
            && (Recorded(h, i) ==> h[j].sp in Run(h, j).syscalls && Run(h, j).syscalls[h[j].sp] == RecordOf(h, i))
            && (!Recorded(h, i) ==> Run(h, j + 1) == Tick(Run(h, j)))
  {
    PendingWhenAlternating(h, j, h[j].sp);
    LastIsBefore(h, j, h[j].sp);
    RunMatches(h, j);
  }

  /**
   With alternating events every recorded enter is processed exactly once: by the next system call event at its
   stack pointer, which is an exit.
   */
  lemma ProcessedByNext(h: History, i: nat, j: nat)
    requires Alternates(h) && i < j < |h| && Recorded(h, i)
    requires !h[j].BeforeTb? && LastAt(h, j, h[j].sp) == Some(i)
    ensures h[j].Exit?
    ensures forall k: nat :: k < |h| && h[k].Exit? ==> (EnterOf(h, k) == Some(i) <==> k == j)
  {
    PendingSinceLast(h, j, h[j].sp);
    forall k: nat | k < |h| && h[k].Exit?
      ensures EnterOf(h, k) == Some(i) <==> k == j
    {
      if EnterOf(h, k) == Some(i) && k < j {
        ProcessedOnce(h, k, j);
      } else if EnterOf(h, k) == Some(i) && k > j {
        ProcessedOnce(h, j, k);
      }
    }
  }

  /** No record is processed twice, alternating or not. */
  lemma ProcessedOnce(h: History, j: nat, j': nat)
    requires j < j' < |h| && h[j].Exit? && h[j'].Exit? && EnterOf(h, j).Some?
    ensures EnterOf(h, j') != EnterOf(h, j)
  {
    var i := EnterOf(h, j).value;
    PendingIsLastRecorded(h, j, h[j].sp, i);
    PendingIsLastRecorded(h, j', h[j'].sp, i);
    assert Touches(h, j, h[j].sp);
  }

  // ----- what becomes of a record -----

  /** The exit handler at event j frees the record that enter i allocated. */
  ghost predicate FreesRecord(h: History, j: nat, i: nat)
    requires j < |h|
  {
    h[j].Exit? && EnterOf(h, j) == Some(i)
  }

  /** Enter k takes the entry of the pending record of enter i, which is never freed then. */
  ghost predicate LosesRecord(h: History, k: nat, i: nat)
    requires k < |h|
  {
    h[k].Enter? && Recorded(h, k) && PendingAt(h, k, h[k].sp) == Some(i)
  }

  ghost predicate EndsRecord(h: History, j: nat, i: nat)
    requires j < |h|
  {
    FreesRecord(h, j, i) || LosesRecord(h, j, i)
  }

  /** What event n - 1 does to the record of enter i, if that was pending before it. */
  lemma RecordNext(h: History, n: nat, i: nat)
    requires i < n - 1 < |h| && Recorded(h, i)
    ensures var sp := h[i].sp;
            PendingAt(h, n, sp) == Some(i) <==>
            PendingAt(h, n - 1, sp) == Some(i) && !EndsRecord(h, n - 1, i)
    ensures EndsRecord(h, n - 1, i) ==> PendingAt(h, n - 1, h[i].sp) == Some(i)
    ensures !(FreesRecord(h, n - 1, i) && LosesRecord(h, n - 1, i))
  {
    var e := h[n - 1];
    if !e.BeforeTb? && PendingAt(h, n - 1, e.sp) == Some(i) {
      PendingIsLastRecorded(h, n - 1, e.sp, i);
    }
  }

  /**
   Every record that an enter allocates is pending, freed by exactly one exit, or lost to exactly one later enter at
   its stack pointer; and never two of these.
   */
  lemma {:induction false} RecordFate(h: History, n: nat, i: nat)
    requires i < n <= |h| && Recorded(h, i)
    ensures PendingAt(h, n, h[i].sp) == Some(i) <==> forall j: nat :: i < j < n ==> !EndsRecord(h, j, i)
    ensures forall j: nat, k: nat :: i < j < k < n && EndsRecord(h, j, i) ==> !EndsRecord(h, k, i)
    ensures forall j: nat :: i < j < n ==> !(FreesRecord(h, j, i) && LosesRecord(h, j, i))
    decreases n
  {
    hide FreesRecord, LosesRecord, EndsRecord;
    if i < n - 1 {
      RecordFate(h, n - 1, i);
      RecordNext(h, n, i);
    }
  }

  /** With alternating events no record is lost. */
  lemma NoRecordLost(h: History, k: nat, i: nat)
    requires Alternates(h) && k < |h|
    ensures !LosesRecord(h, k, i)
  {
    if h[k].Enter? {
      PendingWhenAlternating(h, k, h[k].sp);
    }
  }

  /** Two enters at one stack pointer lose the first record, and the exit frees the second. */
  lemma LostRecordExample()
    ensures var e := Enter(16, Linux64, Close, Args(3, 0, 0, 0), Null);
            var h := [e, e, Exit(16, Linux64, 0)];
            LosesRecord(h, 1, 0) && FreesRecord(h, 2, 1)
  {
    var e := Enter(16, Linux64, Close, Args(3, 0, 0, 0), Null);
    var h := [e, e, Exit(16, Linux64, 0)];
    assert Recorded(h, 0) && Recorded(h, 1);
    assert PendingAt(h, 1, 16) == Some(0) && PendingAt(h, 2, 16) == Some(1);
  }
}
