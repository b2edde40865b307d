/** The mappings and the number of each Windows process as functions of the history, and views of shared sections. */
module WindowsViews {
  import opened Words
  import opened MappingStore
  import opened WindowsSections
  import opened WindowsHistory

  // ----- views -----

  /** The event that created the section of which event j maps a view, if that section still exists. */
  ghost function Viewed(h: History, j: nat): (r: Option<nat>)
    requires j < |h|
    ensures r.Some? ==> r.value < j && MakesSection(h, r.value)
  {
    match EnterOf(h, j)
    case None => None
    case Some(i) =>
      if !h[i].request.MapView? then None
      else match SectionAt(h, i, h[j].ctx, h[i].request.hsection)
        case None => None
        case Some(m) => if Exists(h, j, m) then Some(m) else None
  }

  /** The table without the mapping that mapping_find gave for this address. */
  ghost function Unmapped(t: Table, addr: Word64, found: Option<CString>): Table {
    if found.Some? && LiesAt(t, addr, found.value) then t - {found.value} else t
  }

  /** The intervals after event j: a view is mapped at the base and size the guest was given, or one is unmapped. */
  ghost function ViewsAfter(h: History, j: nat, t: Table): Table
    requires j < |h|
  {
    match Done(h, j)
    case MapView(_, pbase, psize) =>
      (match Viewed(h, j)
       case None => t
       case Some(m) => Created(t, SectionOf(h, m).filename, Out(h, j, pbase), Out(h, j, psize)))
    case UnmapView(base) => Unmapped(t, base, h[j].found)
    case QueryProcess(info) => if h[j].os == WinXP then Unmapped(t, info, h[j].found) else t
    case _ => t
  }

  /** The intervals of all files mapped in process c, folded over the history. */
  ghost function Views(h: History, n: nat, c: Word64): Table
    requires n <= |h|
  {
    if n == 0 then map[]
    else if h[n - 1].ctx == c then ViewsAfter(h, n - 1, Views(h, n - 1, c))
    else Views(h, n - 1, c)
  }

  lemma FinishMappings(p: WinProc, s: Shared, params: Params, e: Event)
    requires e.Exit?
    ensures var q := Finish(p, s, params, e);
            if e.ret != 0 then q.mappings == p.mappings && q.clashed == p.clashed
            else match params
              case MapSectionParams(id, pbase, psize) =>
                if id in s.objects then
                  var m := MappingCreate(p, s.objects[id].filename, ReadOut(e, pbase), ReadOut(e, psize));
                  q.mappings == m.mappings && q.clashed == m.clashed
                else q.mappings == p.mappings && q.clashed == p.clashed
              case UnmapParams(base) => q.mappings == Unmapped(p.mappings, base, e.found) && q.clashed == p.clashed
              case QueryParams(info) =>
                && q.clashed == p.clashed
                && q.mappings == if e.os == WinXP then Unmapped(p.mappings, info, e.found) else p.mappings
              case _ => q.mappings == p.mappings && q.clashed == p.clashed
  {
    hide ReadOut, MappingCreate, MappingDelete, SectionOpen, FileOpen, FileClose, Unmapped;
    match params
    case CloseParams(fd) => FilesOnly(p, Null, fd);
    case FileParams(phandle, name) => FilesOnly(p, name, ReadOut(e, phandle));
    case DuplicateParams(file, phandle) =>
      FilesOnly(p, if file in p.live then p.live[file] else Null, ReadOut(e, phandle));
    case OpenSectionParams(phandle, name) => HandlesOnly(p, s, name, ReadOut(e, phandle));
    case UnmapParams(base) => DeleteIsUnmapped(p, base, e.found);
    case QueryParams(info) =>
      DeleteIsUnmapped(p.(pid := ReadOut(e, Add64(info, if e.os == WinXP then 16 else 32))), info, e.found);
    case _ =>
  }

  lemma FilesOnly(p: WinProc, name: CString, fd: Handle)
    ensures var q := FileClose(p, fd); q.mappings == p.mappings && q.clashed == p.clashed && q.pid == p.pid
    ensures var q := FileOpen(p, name, fd); q.mappings == p.mappings && q.clashed == p.clashed && q.pid == p.pid
  {}

  lemma HandlesOnly(p: WinProc, s: Shared, name: CString, hd: Handle)
    ensures var q := SectionOpen(p, s, name, hd); q.mappings == p.mappings && q.clashed == p.clashed && q.pid == p.pid
  {}

  lemma DeleteIsUnmapped(p: WinProc, addr: Word64, found: Option<CString>)
    ensures var q := MappingDelete(p, addr, found);
            q.mappings == Unmapped(p.mappings, addr, found) && q.clashed == p.clashed && q.pid == p.pid
  {}

  lemma CreatedOnly(p: WinProc, f: CString, base: Word64, size: Word64)
    ensures var q := MappingCreate(p, f, base, size);
            && (q.clashed <==> p.clashed || !Unshared(Created(p.mappings, f, base, size), f))
            && (!q.clashed ==> q.mappings == Created(p.mappings, f, base, size)) && q.pid == p.pid
  {}

  lemma StepMappings(p: WinProc, s: Shared, e: Event)
    ensures var q := ProcAfter(p, s, e);
            if e.Exit? && e.sp in p.syscalls then
              var r := Finish(p, s, p.syscalls[e.sp], e);
              q.mappings == r.mappings && q.clashed == r.clashed && q.pid == r.pid
            else q.mappings == p.mappings && q.clashed == p.clashed && q.pid == p.pid
  {
    hide Finish;
  }

  /** The section whose view event j maps is the one in its pending record, and exists as the history says. */
  lemma ViewFound(h: History, j: nat, p: WinProc, s: Shared)
    requires j < |h| && PendingMatches(h, j, h[j].ctx, p) && SharedMatches(h, j, s) && Done(h, j).MapView?
    requires h[j].Exit? && h[j].sp in p.syscalls && p.syscalls[h[j].sp].MapSectionParams?
    ensures var id := p.syscalls[h[j].sp].section;
            && (Viewed(h, j).Some? <==> id in s.objects)
            && (Viewed(h, j).Some? ==> s.objects[id] == SectionOf(h, Viewed(h, j).value))
  {
    hide PendingMatches, SectionOf, IdOf, SectionAt;
    RecordFound(h, j, p);
  }

  /** Event j maps a view of a file exactly onto the interval of another one. */
  ghost predicate ClashesAt(h: History, j: nat)
    requires j < |h|
  {
    && Done(h, j).MapView? && Viewed(h, j).Some?
    && !Unshared(Views(h, j + 1, h[j].ctx), SectionOf(h, Viewed(h, j).value).filename)
  }

  lemma ViewsNext(h: History, j: nat, p: WinProc, s: Shared)
    requires j < |h| && PendingMatches(h, j, h[j].ctx, p) && SharedMatches(h, j, s)
    requires !p.clashed ==> p.mappings == Views(h, j, h[j].ctx)
    ensures var q := ProcAfter(p, s, h[j]);
            && (!p.clashed ==> (q.clashed <==> ClashesAt(h, j)))
            && (!q.clashed ==> !p.clashed && q.mappings == ViewsAfter(h, j, Views(h, j, h[j].ctx)))
  {
    hide PendingMatches, SharedMatches, Finish, ProcAfter, ReadOut, MappingCreate, Viewed, SectionOf, Unshared, Created,
      Unmapped;
    var e := h[j];
    RecordFound(h, j, p);
    StepMappings(p, s, e);
    if e.Exit? && e.sp in p.syscalls {
      var r := p.syscalls[e.sp];
      FinishMappings(p, s, r, e);
      if Done(h, j).MapView? {
        ViewFound(h, j, p, s);
        if r.section in s.objects {
          CreatedOnly(p, s.objects[r.section].filename, ReadOut(e, r.pbase), ReadOut(e, r.psize));
        }
      }
    }
  }

  lemma ViewsStep(h: History, j: nat, c: Word64)
    requires j < |h| && (!Get(Run(h, j), c).clashed ==> Get(Run(h, j), c).mappings == Views(h, j, c))
    ensures var p, q := Get(Run(h, j), c), Get(Run(h, j + 1), c);
            && (!p.clashed ==> (q.clashed <==> h[j].ctx == c && ClashesAt(h, j)))
            && (!q.clashed ==> !p.clashed && q.mappings == Views(h, j + 1, c))
  {
    hide PendingMatches, FilesMatch, SectionsMatch, SharedMatches, Run, ProcAfter, SharedAfter, ViewsAfter, ClashesAt;
    RunContinues(h, j);
    RunMatches(h, j);
    if h[j].ctx == c {
      ViewsNext(h, j, Get(Run(h, j), c), Run(h, j).shared);
    }
  }

  /** Without a clash the mappings of a process are what its history of views makes them. */
  lemma {:induction false} MappingsFromHistory(h: History, n: nat, c: Word64)
    requires n <= |h|
    ensures !Get(Run(h, n), c).clashed ==> Get(Run(h, n), c).mappings == Views(h, n, c)
    decreases n
  {
    hide Run, ViewsAfter;
    if n == 0 {
      RunStarts(h);
    } else {
      MappingsFromHistory(h, n - 1, c);
      ViewsStep(h, n - 1, c);
    }
  }

  /** A mapping is destroyed by another one exactly when some view gave its file the interval of another file. */
  lemma {:induction false} ClashExactly(h: History, n: nat, c: Word64)
    requires n <= |h|
    ensures Get(Run(h, n), c).clashed <==> exists j :: 0 <= j < n && h[j].ctx == c && ClashesAt(h, j)
    decreases n
  {
    hide Run, ClashesAt, ViewsAfter;
    if n == 0 {
      RunStarts(h);
    } else {
      ClashExactly(h, n - 1, c);
      MappingsFromHistory(h, n - 1, c);
      ViewsStep(h, n - 1, c);
      if Get(Run(h, n - 1), c).clashed {
        RunContinues(h, n - 1);
        UndefinedStays(Run(h, n - 1), h[n - 1], c);
      }
    }
  }

  lemma CreatedOver(p: WinProc, f: CString, base: Word64, size: Word64)
    ensures var q, t := MappingCreate(p, f, base, size), Created(p.mappings, f, base, size);
            f in t && q.mappings == map g | g in t && (g == f || t[g] != t[f]) :: t[g]
  {}

  /** What is left after a clash: the file of the view, and the files that do not have its interval. */
  lemma ClashDestroys(h: History, j: nat)
    requires j < |h| && !Get(Run(h, j), h[j].ctx).clashed && ClashesAt(h, j)
    ensures var f, t := SectionOf(h, Viewed(h, j).value).filename, Views(h, j + 1, h[j].ctx);
            f in t && Get(Run(h, j + 1), h[j].ctx).mappings == map g | g in t && (g == f || t[g] != t[f]) :: t[g]
  {
    hide Run, PendingMatches, FilesMatch, SectionsMatch, SharedMatches, ProcAfter, SharedAfter, Finish, ReadOut,
      MappingCreate, Viewed, SectionOf, Unshared, Created;
    var w, e := Run(h, j), h[j];
    var p := Get(w, e.ctx);
    RunContinues(h, j);
    RunMatches(h, j);
    MappingsFromHistory(h, j, e.ctx);
    RecordFound(h, j, p);
    ViewFound(h, j, p, w.shared);
    StepMappings(p, w.shared, e);
    FinishMappings(p, w.shared, p.syscalls[e.sp], e);
    var r := p.syscalls[e.sp];
    CreatedOver(p, w.shared.objects[r.section].filename, ReadOut(e, r.pbase), ReadOut(e, r.psize));
  }

  // ----- process numbers -----

  /** The number that the last successful process query returned in its buffer: at byte 32, on XP at byte 16. */
  ghost function PidAt(h: History, n: nat, c: Word64): Word64
    requires n <= |h|
  {
    if n == 0 then 0
    else if h[n - 1].ctx == c && Done(h, n - 1).QueryProcess? then
      Out(h, n - 1, (Done(h, n - 1).info + if h[n - 1].os == WinXP then 16 else 32) % TWO_TO_64)
    else PidAt(h, n - 1, c)
  }

  lemma FinishPid(p: WinProc, s: Shared, params: Params, e: Event)
    requires e.Exit?
    ensures Finish(p, s, params, e).pid ==
            if e.ret == 0 && params.QueryParams? then
              ReadOut(e, Add64(params.info, if e.os == WinXP then 16 else 32))
            else p.pid
  {
    hide ReadOut, MappingCreate, MappingDelete, SectionOpen, FileOpen, FileClose;
    match params
    case CloseParams(fd) => FilesOnly(p, Null, fd);
    case FileParams(phandle, name) => FilesOnly(p, name, ReadOut(e, phandle));
    case DuplicateParams(file, phandle) =>
      FilesOnly(p, if file in p.live then p.live[file] else Null, ReadOut(e, phandle));
    case OpenSectionParams(phandle, name) => HandlesOnly(p, s, name, ReadOut(e, phandle));
    case MapSectionParams(id, pbase, psize) =>
      if id in s.objects {
        CreatedOnly(p, s.objects[id].filename, ReadOut(e, pbase), ReadOut(e, psize));
      }
    case UnmapParams(base) => DeleteIsUnmapped(p, base, e.found);
    case QueryParams(info) =>
      DeleteIsUnmapped(p.(pid := ReadOut(e, Add64(info, if e.os == WinXP then 16 else 32))), info, e.found);
    case _ =>
  }

  lemma PidStep(h: History, j: nat, p: WinProc, s: Shared)
    requires j < |h| && PendingMatches(h, j, h[j].ctx, p)
    ensures ProcAfter(p, s, h[j]).pid ==
            if Done(h, j).QueryProcess? then
              Out(h, j, (Done(h, j).info + if h[j].os == WinXP then 16 else 32) % TWO_TO_64)
            else p.pid
  {
    hide PendingMatches, Finish, ProcAfter, ReadOut;
    RecordFound(h, j, p);
    StepMappings(p, s, h[j]);
    if h[j].Exit? && h[j].sp in p.syscalls {
      FinishPid(p, s, p.syscalls[h[j].sp], h[j]);
    }
  }

  lemma {:induction false} PidFromHistory(h: History, n: nat, c: Word64)
    requires n <= |h|
    ensures Get(Run(h, n), c).pid == PidAt(h, n, c)
    decreases n
  {
    hide Run, ProcAfter, SharedAfter, PendingMatches, FilesMatch, SectionsMatch, SharedMatches, Out;
    if n == 0 {
      RunStarts(h);
    } else {
      var j := n - 1;
      PidFromHistory(h, j, c);
      RunContinues(h, j);
      RunMatches(h, j);
      if h[j].ctx == c {
        PidStep(h, j, Get(Run(h, j), c), Run(h, j).shared);
      }
    }
  }

  // ----- views across processes -----

  /** No event from j to n creates a section of this name. */
  ghost predicate NotMade(h: History, j: nat, n: nat, name: seq<Byte>)
    requires n <= |h|
  {
    forall k :: j < k < n ==> !MakesNamed(h, k, name)
  }

  lemma {:induction false} StaysNamed(h: History, j: nat, n: nat, name: seq<Byte>)
    requires j < n <= |h| && MakesNamed(h, j, name) && NamedAt(h, j, name).None? && NotMade(h, j, n, name)
    ensures NamedAt(h, n, name) == Some(j) && !FreedAt(h, n, name)
    decreases n
  {
    if n == j + 1 {
      NeverFreed(h, j, name);
      NamesMade(h, j, name);
    } else {
      StaysNamed(h, j, n - 1, name);
      assert !MakesNamed(h, n - 1, name);
      NamesKept(h, n - 1, name);
    }
  }

  lemma {:induction false} NeverFreed(h: History, n: nat, name: seq<Byte>)
    requires n <= |h| && NamedAt(h, n, name).None?
    ensures !FreedAt(h, n, name)
    decreases n
  {
    if n > 0 {
      NeverFreed(h, n - 1, name);
    }
  }

  /** What a handle means that an open by name bound, as long as it is not closed or bound again. */
  lemma HandleOfName(h: History, j: nat, n: nat, m: nat, phandle: Word64, hd: Handle, name: seq<Byte>)
    requires j < n <= |h| && Done(h, j) == OpenSection(phandle, Text(name)) && WordIs(h[j], phandle, hd)
    requires name != [] && NamedAt(h, j, name) == Some(m) && !FreedAt(h, j, name)
    requires forall k :: j < k < n ==> !ChangesSection(h, k, h[j].ctx, hd)
    ensures SectionAt(h, n, h[j].ctx, hd) == Some(m)
  {
    OutParameter(h[j], phandle, hd);
    assert Binds(h, j, h[j].ctx, hd) == Some(m);
    assert BoundSince(h, j, n, h[j].ctx, hd, m);
    SectionIsLastBound(h, n, h[j].ctx, hd, m);
  }

  /**
   Process A creates a section of a new name, of a File that event k made (event j1); process B opens it by name and
   gets handle hd (j2), and maps a view through that handle (enter j3, exit j4) at this base and of this size. Unless
   the name is created again, or B's handle is closed or bound again in between, the view is a mapping of the file
   that k opened, whatever else happens: A may have closed the file and the section.
   */
  lemma CrossProcessView(h: History, k: nat, j1: nat, j2: nat, j3: nat, j4: nat, name: seq<Byte>, hd: Handle,
                         base: Word64, size: Word64)
    requires j1 < j2 < j3 < j4 < |h| && name != []
    requires Done(h, j1).CreateSection? && Done(h, j1).name == Text(name) && NamedAt(h, j1, name).None?
    requires SourceOf(h, j1, Done(h, j1).hfile) == Some(k)
    requires Done(h, j2).OpenSection? && Done(h, j2).name == Text(name) && WordIs(h[j2], Done(h, j2).phandle, hd)
    requires h[j3].Enter? && h[j3].ctx == h[j2].ctx && h[j3].request.MapView? && h[j3].request.hsection == hd
    requires EnterOf(h, j4) == Some(j3)
    requires WordIs(h[j4], h[j3].request.pbase, base) && WordIs(h[j4], h[j3].request.psize, size)
    requires NotMade(h, j1, j4, name) && forall i :: j2 < i < j3 ==> !ChangesSection(h, i, h[j2].ctx, hd)
    requires !Get(Run(h, j4 + 1), h[j2].ctx).clashed
    ensures var c := h[j2].ctx;
            Get(Run(h, j4 + 1), c).mappings == Created(Get(Run(h, j4), c).mappings, NameOf(h, k), base, size)
  {
    hide Run, NameOf, ChangesSection, Exists, SectionOf, Views, ViewsAfter, Created, MakesNamed, MakesSection,
      SectionAt, ReadOut, WordIs;
    var c := h[j2].ctx;
    MadeOf(h, j1, k, name);
    StaysNamed(h, j1, j2, name);
    StaysNamed(h, j1, j4, name);
    HandleOfName(h, j2, j3, j1, Done(h, j2).phandle, hd, name);
    MadeExists(h, j1, j4, name);
    ViewIs(h, j4, j3, j1, base, size, Views(h, j4, c));
    ViewsThen(h, j4, c);
  }

  lemma MadeOf(h: History, j: nat, k: nat, name: seq<Byte>)
    requires j < |h| && Done(h, j).CreateSection? && Done(h, j).name == Text(name)
    requires SourceOf(h, j, Done(h, j).hfile) == Some(k)
    ensures MakesNamed(h, j, name) && SectionOf(h, j).filename == NameOf(h, k)
  {}

  /** What mapping a view of the section that event m created does. */
  lemma ViewIs(h: History, j: nat, i: nat, m: nat, base: Word64, size: Word64, t: Table)
    requires j < |h| && EnterOf(h, j) == Some(i) && h[i].request.MapView? && m < j && MakesSection(h, m)
    requires SectionAt(h, i, h[i].ctx, h[i].request.hsection) == Some(m) && Exists(h, j, m)
    requires WordIs(h[j], h[i].request.pbase, base) && WordIs(h[j], h[i].request.psize, size)
    ensures ViewsAfter(h, j, t) == Created(t, SectionOf(h, m).filename, base, size)
  {
    hide Exists, SectionOf, Created, ReadOut;
    OutParameter(h[j], h[i].request.pbase, base);
    OutParameter(h[j], h[i].request.psize, size);
  }

  lemma ViewsThen(h: History, j: nat, c: Word64)
    requires j < |h| && h[j].ctx == c && !Get(Run(h, j + 1), c).clashed
    ensures Get(Run(h, j), c).mappings == Views(h, j, c)
    ensures Get(Run(h, j + 1), c).mappings == ViewsAfter(h, j, Views(h, j, c))
  {
    hide Run, ViewsAfter;
    MappingsFromHistory(h, j, c);
    MappingsFromHistory(h, j + 1, c);
    RunContinues(h, j);
    UndefinedStays(Run(h, j), h[j], c);
  }

  lemma MadeExists(h: History, m: nat, n: nat, name: seq<Byte>)
    requires m < n <= |h| && MakesNamed(h, m, name) && NamedAt(h, n, name) == Some(m)
    ensures Exists(h, n, m)
  {}
}
