/** Where the mappings and function names of a traced process come from. */
module LinuxProvenance {
  import opened Words
  import opened SearchTree
  import opened MappingStore
  import opened GuestMemory
  import opened FunctionTable
  import opened ImageReading
  import opened WalkProperties
  import opened ElfReader
  import opened ElfProperties
  import opened LinuxProcess
  import opened LinuxHistory
  import opened LinuxOwnership

  // ----- File objects -----

  /** Event j made a File for the path that enter EnterOf(h, j) read. */
  ghost predicate FileOf(h: History, j: nat, f: File) {
    && j < |h| && h[j].Exit?
    && EnterOf(h, j).Some? && EnterOf(h, j).value < j && h[EnterOf(h, j).value].Enter?
    && f == File(h[j].ret, NameOf(h, EnterOf(h, j).value))
  }

  lemma LiveAfter(p: Proc, e: Event, j: nat)
    ensures j in Step(p, e).live ==>
              || (j in p.live && Step(p, e).live[j] == p.live[j])
              || (j == p.clock && e.Exit? && e.sp in p.syscalls && p.syscalls[e.sp].params.FileParams?
                  && OpenLike(p.syscalls[e.sp].num)
                  && Step(p, e).live[j] == File(e.ret, p.syscalls[e.sp].params.name))
  {
    hide EnterStep, TbStep, MappingCreate;
    match e
    case Enter(_, _, _, _, _) => EnterFrame(p, e);
    case Exit(_, _, _) =>
      ExitFrame(p, e);
      if e.sp in p.syscalls {
        match p.syscalls[e.sp].params
        case FileParams(name) =>
          CloseFrame(p, e.ret);
          FreeFrame(p, name);
        case CloseParams(h) => CloseFrame(p, h);
        case MapFileParams(_, _, _, _) =>
      }
    case BeforeTb(_, _, _) => TbFrame(p, e);
  }

  lemma LiveNext(h: History, k: nat, j: nat)
    requires k < |h| && j in Run(h, k + 1).live
    ensures var p, q := Run(h, k), Run(h, k + 1);
            (j in p.live && q.live[j] == p.live[j]) || (j == k && FileOf(h, j, q.live[j]))
  {
    LiveAfter(Run(h, k), h[k], j);
    ClockCounts(h, k);
    RunMatches(h, k);
  }

  lemma {:induction false} LiveFiles(h: History, n: nat, j: nat)
    requires n <= |h| && j in Run(h, n).live
    ensures j < n && FileOf(h, j, Run(h, n).live[j])
    decreases n
  {
    if n > 0 {
      LiveNext(h, n - 1, j);
      if j in Run(h, n - 1).live && Run(h, n).live[j] == Run(h, n - 1).live[j] {
        LiveFiles(h, n - 1, j);
      }
    }
  }

  /** A File is live exactly while its handle still means it. */
  lemma LiveExactly(h: History, n: nat, k: nat, fd: Handle, m: nat)
    requires n <= |h| && m <= n && FileAt(h, m, fd) == Some(k)
    ensures k in Run(h, n).live <==> FileAt(h, n, fd) == Some(k)
  {
    RunSound(h, n);
    RunMatches(h, n);
    FileIsLastOpened(h, m, fd, k);
    if k in Run(h, n).live {
      LiveFiles(h, n, k);
    }
  }

  /** The File's name is the path its enter read. */
  lemma LiveName(h: History, n: nat, k: nat)
    requires n <= |h| && k in Run(h, n).live
    ensures k < n && FileOf(h, k, Run(h, n).live[k])
    ensures Deref(Run(h, n), Run(h, n).live[k].name) == h[EnterOf(h, k).value].path
  {
    LiveFiles(h, n, k);
    var p := Run(h, n);
    if p.live[k].name.At? {
      var id := p.live[k].name.id;
      RunSound(h, n);
      assert InFile(p, k, id);
      StringsConserved(h, n, id);
    }
  }

  /** The path of handle fd before event n. */
  lemma OpenFilePath(h: History, n: nat, fd: Handle)
    requires n <= |h|
    ensures var p := Run(h, n);
            && (fd in p.files <==> FileAt(h, n, fd).Some?)
            && (fd in p.files ==>
                  var k := FileAt(h, n, fd).value;
                  && k in p.live && k < n && FileOf(h, k, p.live[k])
                  && Deref(p, p.live[k].name) == h[EnterOf(h, k).value].path)
  {
    RunMatches(h, n);
    RunSound(h, n);
    if fd in Run(h, n).files {
      LiveName(h, n, FileAt(h, n, fd).value);
    }
  }

  // ----- mappings -----

  /** Event j completes an mmap; the result is its enter and the exit that had opened the File the enter saw. */
  ghost function MmapOf(h: History, j: nat): Option<(nat, nat)>
    requires j < |h|
  {
    var i := EnterOf(h, j);
    if h[j].Exit? && i.Some? && i.value < j && h[i.value].Enter? && h[i.value].sc == Mmap
       && FileAt(h, i.value, h[i.value].args.a5).Some?
    then Some((i.value, FileAt(h, i.value, h[i.value].args.a5).value))
    else None
  }

  /** Event j completes an mmap whose handle was closed or replaced since its enter. */
  ghost predicate UsesDead(h: History, j: nat)
    requires j < |h|
  {
    && MmapOf(h, j).Some?
    && (var (i, k) := MmapOf(h, j).value;
        i < j && h[i].Enter? && FileAt(h, j, h[i].args.a5) != Some(k))
  }

  datatype MapCall = MapCall(file: CString, base: Word64, size: Word64)

  /**
   The mapping_create call of event j: a successful mmap, at the address it returned, of the path read at the
   enter of the call that opened its handle.
   */
  ghost function MapCallAt(h: History, j: nat): Option<MapCall>
    requires j < |h|
  {
    match MmapOf(h, j)
    case None => None
    case Some((i, k)) =>
      if i < j && h[i].Enter? && h[j].Exit? && !(h[j].abi == Linux64 && h[j].ret == 0xffff_ffff_ffff_ffff)
         && FileAt(h, j, h[i].args.a5) == Some(k)
         && k < j && EnterOf(h, k).Some? && EnterOf(h, k).value < k && h[EnterOf(h, k).value].Enter?
      then Some(MapCall(h[EnterOf(h, k).value].path, h[j].ret, h[i].args.a2))
      else None
  }

  /** The intervals of all files, folded over the history. */
  ghost function MapTable(h: History, n: nat): Table
    requires n <= |h|
  {
    if n == 0 then map[]
    else match MapCallAt(h, n - 1)
      case None => MapTable(h, n - 1)
      case Some(MapCall(f, base, size)) => Created(MapTable(h, n - 1), f, base, size)
  }

  /** Event e completes the mmap that is pending at its stack pointer. */
  predicate EndsMmap(p: Proc, e: Event) {
    e.Exit? && e.sp in p.syscalls && p.syscalls[e.sp].params.MapFileParams? && p.syscalls[e.sp].num == Mmap
  }

  lemma MapsAfter(p: Proc, e: Event)
    ensures var q := Step(p, e);
            if EndsMmap(p, e) then
              var r := p.syscalls[e.sp].params;
              && (q.dangling <==> p.dangling || r.file !in p.live)
              && (if r.file in p.live && MmapOk(e.abi, e.ret) then
                    var m := MappingCreate(p, Deref(p, p.live[r.file].name), e.ret, r.size);
                    q.mappings == m.mappings && q.clashed == m.clashed
                  else q.mappings == p.mappings && q.clashed == p.clashed)
            else
              && (q.dangling <==> p.dangling) && (q.clashed <==> p.clashed)
              && Intervals(q.mappings) == Intervals(p.mappings)
  {
    hide EnterStep, TbStep, FileOpen, FileClose, Free, MappingCreate;
    match e
    case Enter(_, _, _, _, _) => EnterFrame(p, e);
    case Exit(_, _, _) =>
      ExitFrame(p, e);
      if EndsMmap(p, e) && p.syscalls[e.sp].params.file in p.live {
        var r := p.syscalls[e.sp].params;
        MapFrame(p, Deref(p, p.live[r.file].name), e.ret, r.size);
      }
    case BeforeTb(_, _, _) => TbFrame(p, e);
  }

  /** What the exit at j finds pending, when it completes an mmap. */
  lemma MmapRecord(h: History, j: nat)
    requires j < |h|
    ensures var p := Run(h, j);
            MmapOf(h, j).Some? <==>
            && h[j].Exit? && h[j].sp in p.syscalls
            && p.syscalls[h[j].sp].params.MapFileParams? && p.syscalls[h[j].sp].num == Mmap
    ensures MmapOf(h, j).Some? ==>
              var p, (i, k) := Run(h, j), MmapOf(h, j).value;
              && i < j && h[i].Enter? && h[j].Exit?
              && p.syscalls[h[j].sp].params == MapFileParams(k, h[i].args.a1, h[i].args.a2, h[i].args.a6)
              && (k in p.live <==> FileAt(h, j, h[i].args.a5) == Some(k))
  {
    RunMatches(h, j);
    if MmapOf(h, j).Some? {
      var (i, k) := MmapOf(h, j).value;
      LiveExactly(h, j, k, h[i].args.a5, i);
    }
  }

  lemma DanglingNext(h: History, k: nat)
    requires k < |h|
    ensures Run(h, k + 1).dangling <==> Run(h, k).dangling || UsesDead(h, k)
  {
    MapsAfter(Run(h, k), h[k]);
    MmapRecord(h, k);
  }

  lemma {:induction false} DanglingHasCause(h: History, n: nat) returns (k: nat)
    requires n <= |h| && Run(h, n).dangling
    ensures k < n && UsesDead(h, k)
    decreases n
  {
    hide UsesDead, Step;
    if n == 0 {
      assert false;
    } else {
      DanglingNext(h, n - 1);
      if Run(h, n - 1).dangling {
        k := DanglingHasCause(h, n - 1);
      } else {
        k := n - 1;
      }
    }
  }

  lemma {:induction false} DanglingStays(h: History, k: nat, n: nat)
    requires k < n <= |h| && UsesDead(h, k)
    ensures Run(h, n).dangling
    decreases n
  {
    hide UsesDead, Step;
    DanglingNext(h, n - 1);
    if k < n - 1 {
      DanglingStays(h, k, n - 1);
    }
  }

  /** A File is used after it was destroyed exactly by the mmaps whose handle was closed or replaced meanwhile. */
  lemma DanglingExactly(h: History, n: nat)
    requires n <= |h|
    ensures Run(h, n).dangling <==> exists j: nat :: j < n && UsesDead(h, j)
  {
    hide UsesDead, Run;
    if Run(h, n).dangling {
      var _ := DanglingHasCause(h, n);
    }
    if j: nat :| j < n && UsesDead(h, j) {
      DanglingStays(h, j, n);
    }
  }

  // ----- clashes -----

  /** Event j maps a file exactly onto the interval of another one. */
  ghost predicate ClashesAt(h: History, j: nat)
    requires j < |h|
  {
    MapCallAt(h, j).Some? && !Unshared(MapTable(h, j + 1), MapCallAt(h, j).value.file)
  }

  /** What event j does to the intervals. */
  lemma MapCallEffect(h: History, j: nat)
    requires j < |h|
    ensures var p, q := Run(h, j), Run(h, j + 1);
            match MapCallAt(h, j)
            case None => Intervals(q.mappings) == Intervals(p.mappings) && (q.clashed <==> p.clashed)
            case Some(MapCall(f, base, size)) =>
              var m := MappingCreate(p, f, base, size);
              q.mappings == m.mappings && q.clashed == m.clashed
  {
    MapsAfter(Run(h, j), h[j]);
    MmapRecord(h, j);
    if MmapOf(h, j).Some? && MmapOf(h, j).value.1 in Run(h, j).live {
      LiveName(h, j, MmapOf(h, j).value.1);
    }
  }

  lemma CallEffect(h: History, j: nat)
    requires j < |h| && Intervals(Run(h, j).mappings) == MapTable(h, j)
    ensures Run(h, j + 1).clashed <==> Run(h, j).clashed || ClashesAt(h, j)
    ensures !Run(h, j + 1).clashed ==> Intervals(Run(h, j + 1).mappings) == MapTable(h, j + 1)
  {
    MapCallEffect(h, j);
    match MapCallAt(h, j)
    case None =>
    case Some(MapCall(f, base, size)) => CreateFrame(Run(h, j), f, base, size);
  }

  lemma ClashedNext(h: History, k: nat)
    requires k < |h| && Run(h, k).clashed
    ensures Run(h, k + 1).clashed
  {
    MapCallEffect(h, k);
  }

  lemma {:induction false} StaysClashed(h: History, k: nat, n: nat)
    requires k <= n <= |h| && Run(h, k).clashed
    ensures Run(h, n).clashed
    decreases n
  {
    hide Step;
    if k < n {
      StaysClashed(h, k, n - 1);
      ClashedNext(h, n - 1);
    }
  }

  /** The mappings after a run without a clash are the fold of the successful mmaps of its history. */
  lemma {:induction false} MappingsFromHistory(h: History, n: nat)
    requires n <= |h| && !Run(h, n).clashed
    ensures Intervals(Run(h, n).mappings) == MapTable(h, n)
    decreases n
  {
    hide Step;
    if n > 0 {
      if Run(h, n - 1).clashed {
        ClashedNext(h, n - 1);
      }
      MappingsFromHistory(h, n - 1);
      CallEffect(h, n - 1);
    }
  }

  lemma {:induction false} ClashHasCause(h: History, n: nat) returns (k: nat)
    requires n <= |h| && Run(h, n).clashed
    ensures k < n && ClashesAt(h, k)
    decreases n
  {
    hide ClashesAt, Step;
    if n == 0 {
      assert false;
    } else if Run(h, n - 1).clashed {
      k := ClashHasCause(h, n - 1);
    } else {
      k := n - 1;
      MappingsFromHistory(h, n - 1);
      CallEffect(h, n - 1);
    }
  }

  lemma ClashHasEffect(h: History, k: nat)
    requires k < |h| && ClashesAt(h, k)
    ensures Run(h, k + 1).clashed
  {
    if Run(h, k).clashed {
      ClashedNext(h, k);
    } else {
      MappingsFromHistory(h, k);
      CallEffect(h, k);
    }
  }

  /** A mapping is destroyed by g_tree_insert exactly when some mmap gave its file the interval of another file. */
  lemma ClashExactly(h: History, n: nat)
    requires n <= |h|
    ensures Run(h, n).clashed <==> exists j: nat :: j < n && ClashesAt(h, j)
  {
    hide ClashesAt, Run;
    if Run(h, n).clashed {
      var _ := ClashHasCause(h, n);
    }
    if j: nat :| j < n && ClashesAt(h, j) {
      ClashHasEffect(h, j);
      StaysClashed(h, j + 1, n);
    }
  }

  // ----- example runs -----

  /** Events n and n + 1 open a file as fd. */
  lemma OpenPair(h: History, n: nat, fd: Handle, path: seq<Byte>)
    requires n + 2 <= |h| && fd < 0x8000_0000 && fd !in Run(h, n).files
    requires h[n] == Enter(16, Linux64, Open, Args(0, 0, 0, 0), Text(path)) && h[n + 1] == Exit(16, Linux64, fd)
    ensures var p, q := Run(h, n), Run(h, n + 2);
            && q.strings == p.strings[n := path] && q.live == p.live[n + 1 := File(fd, At(n))]
            && q.files == p.files[fd := n + 1] && q.syscalls == p.syscalls - {16}
            && q.mappings == p.mappings && q.dangling == p.dangling && q.clashed == p.clashed
  {
    ClockCounts(h, n);
    var p, q := Run(h, n), Run(h, n + 1);
    assert q == Tick(Allocate(p, Text(path)).(syscalls := p.syscalls[16 := Pending(Open, FileParams(At(n)))]));
    assert Run(h, n + 2) == Tick(ExitStep(q, h[n + 1]));
  }

  /** Event n enters an mmap of 4096 bytes of the file fd. */
  lemma MmapEnter(h: History, n: nat, fd: Handle)
    requires n < |h| && fd in Run(h, n).files
    requires h[n] == Enter(16, Linux64, Mmap, Args(0, 4096, fd, 0), Null)
    ensures var p := Run(h, n);
            var record := Pending(Mmap, MapFileParams(p.files[fd], 0, 4096, 0));
            Run(h, n + 1) == Tick(p.(syscalls := p.syscalls[16 := record]))
  {}

  /** Events n and n + 1 map the file fd at 8192. */
  lemma MmapPair(h: History, n: nat, fd: Handle)
    requires n + 2 <= |h| && fd in Run(h, n).files && Run(h, n).files[fd] in Run(h, n).live
    requires h[n] == Enter(16, Linux64, Mmap, Args(0, 4096, fd, 0), Null) && h[n + 1] == Exit(16, Linux64, 8192)
    ensures var p, q := Run(h, n), Run(h, n + 2);
            && q.strings == p.strings && q.live == p.live && q.files == p.files && q.dangling == p.dangling
            && var m := MappingCreate(p, Deref(p, p.live[p.files[fd]].name), 8192, 4096);
               q.mappings == m.mappings && q.clashed == m.clashed
  {
    MmapEnter(h, n, fd);
    var q := Run(h, n + 1);
    assert Run(h, n + 2) == Tick(ExitStep(q, h[n + 1]));
  }

  ghost const CLOSED_TOO_EARLY: History :=
    [Enter(16, Linux64, Open, Args(0, 0, 0, 0), Text([97])), Exit(16, Linux64, 3),
     Enter(16, Linux64, Mmap, Args(0, 4096, 3, 0), Null),
     Enter(32, Linux64, Close, Args(3, 0, 0, 0), Null), Exit(32, Linux64, 0),
     Exit(16, Linux64, 8192)]

  /** A handle closed between the enter and the exit of an mmap: the exit uses a destroyed File. */
  lemma DanglingExample()
    ensures UsesDead(CLOSED_TOO_EARLY, 5) && !Run(CLOSED_TOO_EARLY, 5).dangling && Run(CLOSED_TOO_EARLY, 6).dangling
  {
    var h := CLOSED_TOO_EARLY;
    OpenPair(h, 0, 3, [97]);
    MmapEnter(h, 2, 3);
    CloseWhilePending(h);
    assert Run(h, 6) == Tick(ExitStep(Run(h, 5), h[5]));
    DanglingNext(h, 5);
  }

  lemma CloseWhilePending(h: History)
    requires h == CLOSED_TOO_EARLY && !Run(h, 3).dangling
    requires Run(h, 3).files == map[3 := 1]
             && Run(h, 3).syscalls == map[16 := Pending(Mmap, MapFileParams(1, 0, 4096, 0))]
    ensures var q := Run(h, 5);
            && 1 !in q.live && !q.dangling
            && 16 in q.syscalls && q.syscalls[16] == Run(h, 3).syscalls[16]
  {
    hide ExitStep;
    var p := Run(h, 3);
    var q := Tick(p.(syscalls := p.syscalls[32 := Pending(Close, CloseParams(3))]));
    assert Step(p, h[3]) == q;
    CloseNow(q, h[4]);
    assert Run(h, 5) == Step(q, h[4]);
  }

  lemma CloseNow(q: Proc, e: Event)
    requires e.Exit? && e.ret == 0 && e.sp in q.syscalls && q.syscalls[e.sp] == Pending(Close, CloseParams(3))
    ensures var r := Step(q, e);
            && r.live == (if 3 in q.files then q.live - {q.files[3]} else q.live)
            && r.dangling == q.dangling && r.syscalls == q.syscalls - {e.sp}
  {
    hide FileClose;
    CloseFrame(q, 3);
  }

  ghost const MAPPED_TWICE: History :=
    [Enter(16, Linux64, Open, Args(0, 0, 0, 0), Text([97])), Exit(16, Linux64, 3),
     Enter(16, Linux64, Open, Args(0, 0, 0, 0), Text([98])), Exit(16, Linux64, 4),
     Enter(16, Linux64, Mmap, Args(0, 4096, 3, 0), Null), Exit(16, Linux64, 8192),
     Enter(16, Linux64, Mmap, Args(0, 4096, 4, 0), Null), Exit(16, Linux64, 8192)]

  lemma BothOpen()
    ensures var p := Run(MAPPED_TWICE, 4);
            && p.strings == map[0 := [97], 2 := [98]] && p.live == map[1 := File(3, At(0)), 3 := File(4, At(2))]
            && p.files == map[3 := 1, 4 := 3] && p.mappings == map[] && !p.dangling && !p.clashed
  {
    OpenPair(MAPPED_TWICE, 0, 3, [97]);
    OpenPair(MAPPED_TWICE, 2, 4, [98]);
  }

  lemma FirstMapped()
    ensures var p := Run(MAPPED_TWICE, 6);
            && p.strings == map[0 := [97], 2 := [98]] && p.live == map[1 := File(3, At(0)), 3 := File(4, At(2))]
            && p.files == map[3 := 1, 4 := 3] && p.mappings == map[Text([97]) := Mapped(Key(8192, 4096), None)]
            && !p.dangling && !p.clashed
  {
    hide Step, MappingCreate;
    var p := Run(MAPPED_TWICE, 4);
    BothOpen();
    assert Deref(p, p.live[p.files[3]].name) == Text([97]);
    CreateFirst(p);
    MmapPair(MAPPED_TWICE, 4, 3);
  }

  lemma CreateFirst(p: Proc)
    requires p.mappings == map[] && !p.clashed
    ensures var m := MappingCreate(p, Text([97]), 8192, 4096);
            m.mappings == map[Text([97]) := Mapped(Key(8192, 4096), None)] && !m.clashed
  {}

  lemma CreateSecond(p: Proc)
    requires p.mappings == map[Text([97]) := Mapped(Key(8192, 4096), None)]
    ensures var m := MappingCreate(p, Text([98]), 8192, 4096);
            m.clashed && Text([97]) !in m.mappings && Text([98]) in m.mappings
  {
    var t := Created(Intervals(p.mappings), Text([98]), 8192, 4096);
    assert t[Text([97])] == t[Text([98])];
  }

  /** Two files mapped to one place, as when munmap came in between unseen: the first mapping is destroyed. */
  lemma ClashExample()
    ensures var p, q := Run(MAPPED_TWICE, 6), Run(MAPPED_TWICE, 8);
            && !p.clashed && Text([97]) in p.mappings
            && q.clashed && !q.dangling && Text([97]) !in q.mappings && Text([98]) in q.mappings
  {
    FirstMapped();
    MmapPair(MAPPED_TWICE, 6, 4);
    CreateSecond(Run(MAPPED_TWICE, 6));
  }

  // ----- where mappings come from -----

  /** Event j is a successful mmap of the file that the successful open-like call with exit k opened as f. */
  ghost predicate MapsOpened(h: History, j: nat, k: nat, f: CString) {
    && k < j < |h| && MapCallAt(h, j).Some? && MapCallAt(h, j).value.file == f
    && MmapOf(h, j).Some? && MmapOf(h, j).value.1 == k
    && h[k].Exit? && Opens(h, k, h[k].ret)
    && EnterOf(h, k).value < k && h[EnterOf(h, k).value].path == f
  }

  lemma MapCallOpened(h: History, j: nat)
    requires j < |h| && MapCallAt(h, j).Some?
    ensures MapsOpened(h, j, MmapOf(h, j).value.1, MapCallAt(h, j).value.file)
  {
    var (i, k) := MmapOf(h, j).value;
    FileIsLastOpened(h, i, h[i].args.a5, k);
  }

  /** Every mapped file name is the path of an earlier successful open whose file an earlier successful mmap mapped. */
  lemma MappingProvenance(h: History, n: nat, f: CString) returns (j: nat, k: nat)
    requires n <= |h| && !Run(h, n).clashed && f in Run(h, n).mappings
    ensures j < n && MapsOpened(h, j, k, f)
  {
    MappingsFromHistory(h, n);
    assert f in Intervals(Run(h, n).mappings);
    j := TableProvenance(h, n, f);
    MapCallOpened(h, j);
    k := MmapOf(h, j).value.1;
  }

  lemma {:induction false} TableProvenance(h: History, n: nat, f: CString) returns (j: nat)
    requires n <= |h| && f in MapTable(h, n)
    ensures j < n && MapCallAt(h, j).Some? && MapCallAt(h, j).value.file == f
    decreases n
  {
    j := n - 1;
    if f in MapTable(h, n - 1) {
      j := TableProvenance(h, n - 1, f);
    }
  }

  // ----- function names -----

  /** The call c is the one for a function symbol of the image at `base`, named after file f. */
  ghost predicate FromSymbol(mem: Memory, base: Word64, f: CString, c: Tracepoint) {
    var img := ImageAt(mem, base);
    match ReadFront(img, base)
    case Ended(_) => false
    case Ready(is64, t) =>
      exists k: nat :: Defines(img, base, is64, t, k, c.entry)
                       && c.name == NamedAs(img, f, is64, t, k)
  }

  /** Every attempt, successful or not, only adds calls for function symbols. */
  lemma ParsedCalls(mem: Memory, base: Word64, f: CString, c: Tracepoint)
    requires c in Parse(mem, base, f).added
    ensures FromSymbol(mem, base, f, c)
  {
    hide Defines, NamedAs, ReadFront, Walk;
    var img := ImageAt(mem, base);
    match ReadFront(img, base)
    case Ended(_) =>
    case Ready(is64, t) =>
      var calls := CallsAt(img, base, f, is64, t.strtab);
      var k := WalkComesFrom(calls, t.symtab, t.strtab, t.syment, [], Rounds(t.syment), c);
      CallIsDefined(img, base, f, is64, t, k, c);
  }

  /** A symbol has at most one call, so this one is what defines its entry. */
  lemma CallIsDefined(img: Image, base: Word64, f: CString, is64: bool, t: Tables, k: nat, c: Tracepoint)
    requires Visited(t.symtab, t.strtab, t.syment, k)
    requires var r := CallsAt(img, base, f, is64, t.strtab)(SymbolAt(t, k)); r.Some? && c in r.value
    ensures Defines(img, base, is64, t, k, c.entry) && c.name == NamedAs(img, f, is64, t, k)
  {
    hide Defines, NamedAs, ReadSymbol;
    var r := SymbolCalls(img, base, f, is64, t.strtab, SymbolAt(t, k));
    assert r.value == [c];
    CallsAreDefinitions(img, base, f, is64, t, k, c.entry);
  }

  lemma FunctionsAfter(p: Proc, e: Event, entry: Word64)
    requires entry in Step(p, e).functions
    ensures (entry in p.functions && Step(p, e).functions[entry] == p.functions[entry]) ||
            (e.BeforeTb? && e.found.Some? && e.found.value in p.mappings
             && FromSymbol(e.mem, p.mappings[e.found.value].key.base, e.found.value,
                           Tracepoint(entry, Step(p, e).functions[entry])))
  {
    match e
    case Enter(_, _, _, _, _) =>
      EnterFrame(p, e);
    case Exit(_, _, _) =>
      ExitFrame(p, e);
    case BeforeTb(_, _, _) =>
      if TbStep(p, e) != p {
        var f := e.found.value;
        var added := Parse(e.mem, p.mappings[f].key.base, f).added;
        RecordComesFrom(p.functions, added, entry);
        var c := Tracepoint(entry, Step(p, e).functions[entry]);
        if c in added {
          ParsedCalls(e.mem, p.mappings[f].key.base, f, c);
        }
      }
  }

  /** Event j is a translation block in a mapping of file f, and one of its function symbols gives this call. */
  ghost predicate AddsAt(h: History, j: nat, f: CString, c: Tracepoint)
    requires j < |h|
  {
    h[j].BeforeTb? && h[j].found == Some(f) && f in MapTable(h, j) && FromSymbol(h[j].mem, MapTable(h, j)[f].base, f, c)
  }

  lemma FunctionsNext(h: History, k: nat, entry: Word64)
    requires k < |h| && !Run(h, k).clashed && entry in Run(h, k + 1).functions
    ensures var p, q := Run(h, k), Run(h, k + 1);
            || (entry in p.functions && q.functions[entry] == p.functions[entry])
            || exists f :: AddsAt(h, k, f, Tracepoint(entry, q.functions[entry]))
  {
    var p := Run(h, k);
    MappingsFromHistory(h, k);
    FunctionsAfter(p, h[k], entry);
    if h[k].BeforeTb? && h[k].found.Some? && h[k].found.value in p.mappings {
      var f := h[k].found.value;
      assert Intervals(p.mappings)[f] == p.mappings[f].key;
      assert AddsAt(h, k, f, Tracepoint(entry, Run(h, k + 1).functions[entry])) ||
             (entry in p.functions && Run(h, k + 1).functions[entry] == p.functions[entry]);
    }
  }

  lemma {:induction false} TracepointOrigin(h: History, n: nat, entry: Word64) returns (j: nat, f: CString)
    requires n <= |h| && !Run(h, n).clashed && entry in Run(h, n).functions
    ensures j < n && AddsAt(h, j, f, Tracepoint(entry, Run(h, n).functions[entry]))
    decreases n
  {
    hide AddsAt, Step;
    if n == 0 {
      assert false;
    } else {
      if Run(h, n - 1).clashed {
        ClashedNext(h, n - 1);
      }
      FunctionsNext(h, n - 1, entry);
      if entry in Run(h, n - 1).functions && Run(h, n).functions[entry] == Run(h, n - 1).functions[entry] {
        j, f := TracepointOrigin(h, n - 1, entry);
      } else {
        j := n - 1;
        f :| AddsAt(h, j, f, Tracepoint(entry, Run(h, n).functions[entry]));
      }
    }
  }

  /**
   Every tracepoint comes from a function symbol that an earlier block read in the file mapped at its address; its
   name is the file's path, which an earlier open read, and the symbol's name.
   */
  lemma FunctionProvenance(h: History, n: nat, entry: Word64) returns (j: nat, k: nat, f: CString)
    requires n <= |h| && !Run(h, n).clashed && entry in Run(h, n).functions
    requires forall i: nat :: i < n ==> AnsweredAt(h, i)
    ensures j < n && AddsAt(h, j, f, Tracepoint(entry, Run(h, n).functions[entry]))
    ensures var t := MapTable(h, j); f in t && t[f].base <= h[j].pc < (t[f].base + t[f].size) % TWO_TO_64
    ensures exists i: nat :: i < j && MapsOpened(h, i, k, f)
  {
    hide MapsOpened, Answer, Run, MapTable, FromSymbol, EnterOf, FileAt, MmapOf, MapCallAt;
    j, f := TracepointOrigin(h, n, entry);
    NotClashedBefore(h, j, n);
    var i := TableProvenance(h, j, f);
    MapCallOpened(h, i);
    k := MmapOf(h, i).value.1;
    assert AnsweredAt(h, j);
    FoundCovers(h, j);
    AnswerByAddress(MapTable(h, j), h[j].pc, h[j].found);
  }

  lemma NotClashedBefore(h: History, k: nat, n: nat)
    requires k <= n <= |h| && !Run(h, n).clashed
    ensures !Run(h, k).clashed
  {
    if Run(h, k).clashed {
      StaysClashed(h, k, n);
    }
  }

  lemma FoundCovers(h: History, j: nat)
    requires j < |h| && !Run(h, j).clashed && AnsweredAt(h, j) && h[j].BeforeTb?
    ensures Answer(MapTable(h, j), h[j].pc, h[j].found)
  {
    MappingsFromHistory(h, j);
  }

  /** On separated intervals a block parses the file that the history says is mapped at its address, and no other. */
  lemma FoundIsOwner(h: History, j: nat)
    requires j < |h| && !Run(h, j).clashed && h[j].BeforeTb? && Separated(MapTable(h, j))
    ensures var t := MapTable(h, j);
            AnsweredAt(h, j) <==>
            forall f :: h[j].found == Some(f) <==> f in t && t[f].base <= h[j].pc < t[f].base + t[f].size
  {
    OwnerByAddress(MapTable(h, j), h[j].pc);
    MappingsFromHistory(h, j);
    AnswerIsOwner(MapTable(h, j), h[j].pc, h[j].found);
  }
}
