/** module.c over a run: a mapping is parsed until it succeeds once, and never again. */
module LinuxModules {
  import opened Words
  import opened MappingStore
  import opened ImageReading
  import opened ElfReader
  import opened LinuxProcess
  import opened LinuxProvenance

  ghost predicate IsParsed(p: Proc, f: CString) {
    f in p.mappings && p.mappings[f].status == Some(Parsed)
  }

  /** Event e parses the mapping of file f successfully. */
  ghost predicate Parses(p: Proc, e: Event, f: CString) {
    && e.BeforeTb? && e.found == Some(f) && f in p.mappings && !IsParsed(p, f)
    && Parse(e.mem, p.mappings[f].key.base, f).verdict == Done
  }

  ghost predicate ParsesAt(h: History, j: nat, f: CString)
    requires j < |h|
  {
    Parses(Run(h, j), h[j], f)
  }

  lemma ParsedAfter(p: Proc, e: Event, f: CString)
    requires !Step(p, e).clashed
    ensures IsParsed(Step(p, e), f) <==> IsParsed(p, f) || Parses(p, e, f)
  {
    hide FileOpen, FileClose, Free;
    match e
    case Enter(_, _, _, _, _) => EnterFrame(p, e);
    case Exit(_, _, _) => ExitKeepsParsed(p, e, f);
    case BeforeTb(_, _, _) => TbFrame(p, e);
  }

  /** Extending a mapping keeps its module; a new mapping has none. */
  lemma ExitKeepsParsed(p: Proc, e: Event, f: CString)
    requires e.Exit? && !ExitStep(p, e).clashed
    ensures IsParsed(ExitStep(p, e), f) <==> IsParsed(p, f)
    ensures f in p.mappings ==>
            f in ExitStep(p, e).mappings && ExitStep(p, e).mappings[f].status == p.mappings[f].status
  {
    hide FileOpen, FileClose, Free, MappingCreate, Unshared, Created, Intervals;
    ExitFrame(p, e);
    if EndsMmap(p, e) && p.syscalls[e.sp].params.file in p.live {
      var r := p.syscalls[e.sp].params;
      CreateFrame(p, Deref(p, p.live[r.file].name), e.ret, r.size);
    }
  }

  lemma ParsedNext(h: History, k: nat, f: CString)
    requires k < |h| && !Run(h, k + 1).clashed
    ensures IsParsed(Run(h, k + 1), f) <==> IsParsed(Run(h, k), f) || ParsesAt(h, k, f)
  {
    ParsedAfter(Run(h, k), h[k], f);
  }

  lemma {:induction false} ParsedHasCause(h: History, n: nat, f: CString) returns (k: nat)
    requires n <= |h| && !Run(h, n).clashed && IsParsed(Run(h, n), f)
    ensures k < n && ParsesAt(h, k, f)
    decreases n
  {
    hide ParsesAt, Step;
    if n == 0 {
      assert false;
    } else {
      NotClashedBefore(h, n - 1, n);
      ParsedNext(h, n - 1, f);
      if IsParsed(Run(h, n - 1), f) {
        k := ParsedHasCause(h, n - 1, f);
      } else {
        k := n - 1;
      }
    }
  }

  lemma {:induction false} ParsedStays(h: History, k: nat, n: nat, f: CString)
    requires k < n <= |h| && !Run(h, n).clashed && ParsesAt(h, k, f)
    ensures IsParsed(Run(h, n), f)
    decreases n
  {
    hide Step, IsParsed;
    ParsedNext(h, n - 1, f);
    if k < n - 1 {
      NotClashedBefore(h, n - 1, n);
      ParsedStays(h, k, n - 1, f);
    }
  }

  /**
   Without a clash a mapping is marked parsed exactly when an earlier block parsed it; no event takes the mark away.
   */
  lemma ParsedExactly(h: History, n: nat, f: CString)
    requires n <= |h| && !Run(h, n).clashed
    ensures IsParsed(Run(h, n), f) <==> exists j: nat :: j < n && ParsesAt(h, j, f)
  {
    if IsParsed(Run(h, n), f) {
      var _ := ParsedHasCause(h, n, f);
    }
    if j: nat :| j < n && ParsesAt(h, j, f) {
      ParsedStays(h, j, n, f);
    }
  }

  /** At most one block parses a mapping successfully, and later blocks on it change nothing. */
  lemma ParsedOnce(h: History, j: nat, k: nat, f: CString)
    requires j < k < |h| && !Run(h, k).clashed && ParsesAt(h, j, f) && h[k].BeforeTb? && h[k].found == Some(f)
    ensures !ParsesAt(h, k, f) && Run(h, k + 1) == Tick(Run(h, k))
  {
    ParsedStays(h, j, k, f);
  }
}
