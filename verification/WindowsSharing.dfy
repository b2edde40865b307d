/** Sections shared between Windows processes by name. */
module WindowsSharing {
  import opened Words
  import opened MappingStore
  import opened WindowsSections
  import opened WindowsHistory
  import opened WindowsViews

  /** Event e creates a section named n, of a file that is still open. */
  ghost predicate CreatesNamed(w: World, e: Event, n: seq<Byte>) {
    var p := Get(w, e.ctx);
    Creates(p, e) && p.syscalls[e.sp].name == Text(n)
  }

  /** Event e changes what section handle hd of process c means. */
  ghost predicate Rebinds(w: World, e: Event, c: Word64, hd: Handle) {
    && e.Exit? && e.ctx == c && e.ret == 0 && e.sp in Get(w, c).syscalls
    && match Get(w, c).syscalls[e.sp]
       case CloseParams(h) => h == hd
       case SectionParams(phandle, _, _) => ReadOut(e, phandle) == hd
       case OpenSectionParams(phandle, _) => ReadOut(e, phandle) == hd
       case _ => false
  }

  /** The section s is registered under name n and holds file name f. */
  ghost predicate Registered(w: World, n: seq<Byte>, s: Id, f: CString) {
    && n in w.shared.named && n !in w.shared.freed && w.shared.named[n] == s
    && s in w.shared.objects && w.shared.objects[s] == Section(Text(n), f)
  }

  /** A registered section stays what it is until a section of the same name is created. */
  lemma SectionsAfter(w: World, e: Event, n: seq<Byte>, s: Id, f: CString)
    requires Coherent(w) && Registered(w, n, s, f) && !CreatesNamed(w, e, n)
    ensures Registered(Step(w, e), n, s, f)
  {
    assert Old(w, s);
    var p := Get(w, e.ctx);
    if Creates(p, e) && Nameable(p.syscalls[e.sp].name) {
      var m := p.syscalls[e.sp].name.bytes;
      assert m != n;
      assert m in w.shared.named ==> w.shared.objects[w.shared.named[m]].name == Text(m);
    }
  }

  /** A section handle keeps its meaning unless its own process closes or rebinds it. */
  lemma HandlesAfter(w: World, e: Event, c: Word64, hd: Handle)
    requires !Rebinds(w, e, c, hd) && hd in Get(w, c).sections
    ensures var t := Get(Step(w, e), c).sections; hd in t && t[hd] == Get(w, c).sections[hd]
  {
    var p := Get(w, e.ctx);
    if e.ctx == c && e.Exit? && e.sp in p.syscalls {
      FinishSections(p, w.shared, p.syscalls[e.sp], e);
    }
  }

  // ----- names whose key was freed -----

  /** A section named `name` is created by one of the first n events. */
  ghost predicate CreatedBefore(h: History, n: nat, name: seq<Byte>)
    requires n <= |h|
  {
    exists j :: 0 <= j < n && MakesNamed(h, j, name)
  }

  ghost predicate CreatedTwice(h: History, n: nat, name: seq<Byte>)
    requires n <= |h|
  {
    exists j :: 0 <= j < n && MakesNamed(h, j, name) && CreatedBefore(h, j, name)
  }

  lemma {:induction false} CreationsCounted(h: History, n: nat, name: seq<Byte>)
    requires n <= |h|
    ensures NamedAt(h, n, name).Some? <==> CreatedBefore(h, n, name)
    ensures FreedAt(h, n, name) <==> CreatedTwice(h, n, name)
    decreases n
  {
    hide MakesNamed;
    if n > 0 {
      CreationsCounted(h, n - 1, name);
    }
  }

  /**
   A name is registered exactly when it was created, and the key of its entry is freed exactly when it was created
   twice.
   */
  lemma NamesFromHistory(h: History, n: nat, name: seq<Byte>)
    requires n <= |h| && name != []
    ensures name in Run(h, n).shared.named <==> CreatedBefore(h, n, name)
    ensures name in Run(h, n).shared.freed <==> CreatedTwice(h, n, name)
  {
    hide Run, PendingMatches, FilesMatch, SectionsMatch;
    RunMatches(h, n);
    CreationsCounted(h, n, name);
  }

  /** Sections of this name were created by two of the first n events. */
  ghost predicate KeyFreed(h: History, n: nat, name: CString)
    requires n <= |h|
  {
    name.Text? && name.bytes != [] && CreatedTwice(h, n, name.bytes)
  }

  /**
   Event j completes a request with a File or Section that was destroyed since its enter, or looks up a name whose key
   was freed.
   */
  ghost predicate UsesFreed(h: History, j: nat)
    requires j < |h|
  {
    match Done(h, j)
    case CreateSection(_, name, hfile) => SourceOf(h, j, hfile).None? || KeyFreed(h, j, name)
    case OpenSection(_, name) => KeyFreed(h, j, name)
    case MapView(_, _, _) => Viewed(h, j).None?
    case Duplicate(handle, _) => SourceOf(h, j, handle).None?
    case _ => false
  }

  lemma KeyFreedExactly(h: History, n: nat, s: Shared, name: CString)
    requires n <= |h| && SharedMatches(h, n, s)
    ensures ReadsFreed(s, name) <==> KeyFreed(h, n, name)
  {
    if Nameable(name) {
      CreationsCounted(h, n, name.bytes);
    }
  }

  /** What an exit handler uses that is freed is what the history says. */
  lemma DanglesExactly(h: History, j: nat, p: WinProc, s: Shared)
    requires j < |h| && PendingMatches(h, j, h[j].ctx, p) && FilesMatch(h, j, h[j].ctx, p) && SharedMatches(h, j, s)
    ensures h[j].Exit? && h[j].ret == 0 && h[j].sp in p.syscalls && Dangles(p, s, p.syscalls[h[j].sp]) <==>
            UsesFreed(h, j)
  {
    hide PendingMatches, FilesMatch, SharedMatches, KeyFreed, ReadsFreed, Viewed, NameOf, FileAt, Count;
    RecordFound(h, j, p);
    match Done(h, j)
    case CreateSection(_, name, hfile) =>
      SourceAlive(h, j, p, hfile);
      KeyFreedExactly(h, j, s, name);
    case OpenSection(_, name) => KeyFreedExactly(h, j, s, name);
    case MapView(_, _, _) => ViewFound(h, j, p, s);
    case Duplicate(handle, _) => SourceAlive(h, j, p, handle);
    case _ =>
  }

  /** A section of this name is created by event j of the run exactly when the history says so. */
  lemma CreatedInHistory(h: History, j: nat, name: seq<Byte>)
    requires j < |h|
    ensures CreatesNamed(Run(h, j), h[j], name) <==> MakesNamed(h, j, name)
  {
    hide Run, PendingMatches, FilesMatch, SectionsMatch, SharedMatches, MakesSection;
    RunMatches(h, j);
    CreationFound(h, j, Get(Run(h, j), h[j].ctx));
  }

  lemma DanglingNext(w: World, e: Event)
    ensures var p := Get(w, e.ctx);
            Get(Step(w, e), e.ctx).dangling <==>
            p.dangling || (e.Exit? && e.ret == 0 && e.sp in p.syscalls && Dangles(p, w.shared, p.syscalls[e.sp]))
  {
    hide Finish, Dangles, SharedAfter;
    var p := Get(w, e.ctx);
    if e.Exit? && e.sp in p.syscalls {
      FinishSections(p, w.shared, p.syscalls[e.sp], e);
    }
  }

  lemma DanglingStep(h: History, j: nat, c: Word64)
    requires j < |h|
    ensures Get(Run(h, j + 1), c).dangling <==> Get(Run(h, j), c).dangling || (h[j].ctx == c && UsesFreed(h, j))
  {
    hide Run, UsesFreed, ProcAfter, SharedAfter, Dangles, PendingMatches, FilesMatch, SectionsMatch, SharedMatches;
    RunContinues(h, j);
    RunMatches(h, j);
    DanglingNext(Run(h, j), h[j]);
    DanglesExactly(h, j, Get(Run(h, j), h[j].ctx), Run(h, j).shared);
  }

  /**
   A process uses freed memory exactly when it completes a request with a File or Section that is destroyed, or creates
   or opens a section of a name that was already created twice, by whichever processes.
   */
  lemma {:induction false} DanglingExactly(h: History, n: nat, c: Word64)
    requires n <= |h|
    ensures Get(Run(h, n), c).dangling <==> exists j :: 0 <= j < n && h[j].ctx == c && UsesFreed(h, j)
    decreases n
  {
    hide UsesFreed, Run;
    if n == 0 {
      RunStarts(h);
    } else {
      DanglingExactly(h, n - 1, c);
      DanglingStep(h, n - 1, c);
    }
  }

  /** A file is opened, two sections of it are made under one name, and that name is opened. */
  ghost const NAMED_TWICE: History :=
    var done := Exit(1, 7, Win10x64, 0, map[], None);
    [Enter(1, 7, OpenFile(0, Text([97]))), done, Enter(1, 7, CreateSection(0, Text([88]), 0)), done,
     Enter(1, 7, CreateSection(0, Text([88]), 0)), done, Enter(1, 7, OpenSection(0, Text([88]))), done]

  /** The file is open, and nothing undefined was done. */
  ghost predicate HasFile(p: WinProc) {
    p.live == map[1 := Text([97])] && p.files == map[0 := 1] && !p.dangling && !p.clashed
  }

  lemma FileOpenedFirst()
    ensures HasFile(Get(Run(NAMED_TWICE, 2), 1)) && Run(NAMED_TWICE, 2).shared == START.shared
  {
    CallReturns(NAMED_TWICE, 0, FileParams(0, Text([97])));
  }

  /** The effect of one of the two creations. */
  lemma OneCreation(k: nat)
    requires k == 2 || k == 4
    requires var w := Run(NAMED_TWICE, k); HasFile(Get(w, 1)) && [88] !in w.shared.freed
    ensures CreatesNamed(Run(NAMED_TWICE, k + 1), NAMED_TWICE[k + 1], [88]) && HasFile(Get(Run(NAMED_TWICE, k + 2), 1))
    ensures var s, t := Run(NAMED_TWICE, k).shared, Run(NAMED_TWICE, k + 2).shared;
            [88] in t.named && t.freed == if [88] in s.named then s.freed + {[88]} else s.freed
  {
    hide FileOpen, FileClose, SectionOpen, MappingCreate, MappingDelete, ReadOut, EnterStep, ExitStep, Step;
    CallReturns(NAMED_TWICE, k, SectionParams(0, Text([88]), 1));
  }

  lemma OpenedAgain()
    requires var w := Run(NAMED_TWICE, 6); HasFile(Get(w, 1)) && [88] in w.shared.freed
    ensures !Get(Run(NAMED_TWICE, 7), 1).dangling && Get(Run(NAMED_TWICE, 8), 1).dangling
  {
    hide Step, Creates, SharedAfter, Run, SectionOpen, FileOpen, FileClose, ReadOut;
    var h, params := NAMED_TWICE, OpenSectionParams(0, Text([88]));
    CallReturns(h, 6, params);
    OpenFrame(Called(Get(Run(h, 6), 1), 7, params), Run(h, 6).shared, Text([88]), ReadOut(h[7], 0));
  }

  /** The second creation frees the key, and opening the name compares with it. */
  lemma FreedKeyExample()
    ensures var h := NAMED_TWICE;
            && MakesNamed(h, 3, [88]) && MakesNamed(h, 5, [88]) && UsesFreed(h, 7)
            && !Get(Run(h, 7), 1).dangling && Get(Run(h, 8), 1).dangling
  {
    hide Run, CreatesNamed, MakesNamed, UsesFreed, HasFile, CreatedTwice;
    var h := NAMED_TWICE;
    FileOpenedFirst();
    OneCreation(2);
    OneCreation(4);
    CreatedInHistory(h, 3, [88]);
    CreatedInHistory(h, 5, [88]);
    OpenedAgain();
    DanglingStep(h, 7, 1);
  }
}
