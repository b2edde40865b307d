/** The tables of Windows processes, and of the sections they share, as functions of the history of all events. */
module WindowsHistory {
  import opened Words
  import opened WindowsSections

  /** How many of the first n events are of process c. */
  ghost function Count(h: History, n: nat, c: Word64): nat
    requires n <= |h|
  {
    if n == 0 then 0 else Count(h, n - 1, c) + if h[n - 1].ctx == c then 1 else 0
  }

  // ----- requests -----

  /** The enter that process c has pending at stack pointer sp before event n. */
  ghost function PendingAt(h: History, n: nat, c: Word64, sp: Word64): (r: Option<nat>)
    requires n <= |h|
    ensures r.Some? ==> r.value < n && h[r.value].ctx == c && h[r.value].sp == sp && Recorded(h, r.value)
    decreases n, 0
  {
    if n == 0 then None
    else if h[n - 1].ctx == c && h[n - 1].sp == sp && h[n - 1].Exit? then None
    else if h[n - 1].ctx == c && h[n - 1].sp == sp && Recorded(h, n - 1) then Some(n - 1)
    else PendingAt(h, n - 1, c, sp)
  }

  /** The enter at i leaves a record: it is of a followed call, and a handle that it borrows is open. */
  ghost predicate Recorded(h: History, i: nat)
    requires i < |h|
    decreases i, 1
  {
    h[i].Enter? &&
    match h[i].request
    case CreateSection(_, _, hfile) => FileAt(h, i, h[i].ctx, hfile).Some?
    case Duplicate(handle, _) => FileAt(h, i, h[i].ctx, handle).Some?
    case MapView(hsection, _, _) => SectionAt(h, i, h[i].ctx, hsection).Some?
    case Untracked => false
    case _ => true
  }

  /** The enter whose call event j completes successfully. */
  ghost function EnterOf(h: History, j: nat): (r: Option<nat>)
    requires j < |h|
    ensures r.Some? ==> h[j].Exit? && r.value < j && h[r.value].ctx == h[j].ctx && Recorded(h, r.value)
    decreases j, 1
  {
    if h[j].Exit? && h[j].ret == 0 then PendingAt(h, j, h[j].ctx, h[j].sp) else None
  }

  /** The request that event j completes successfully, Untracked when there is none. */
  ghost function Done(h: History, j: nat): (r: Request)
    requires j < |h|
    ensures r != Untracked ==> h[j].Exit?
    decreases j, 2
  {
    match EnterOf(h, j)
    case None => Untracked
    case Some(i) => h[i].request
  }

  /** What the guest has at address a when event j returns. */
  ghost function Out(h: History, j: nat, a: Word64): Word64
    requires j < |h|
  {
    if h[j].Exit? then ReadOut(h[j], a) else 0
  }

  // ----- files -----

  /** The handle of the File that event j opens or duplicates. */
  ghost function NewHandle(h: History, j: nat): Handle
    requires j < |h|
    decreases j, 3
  {
    match Done(h, j)
    case OpenFile(phandle, _) => Out(h, j, phandle)
    case Duplicate(_, phandle) => Out(h, j, phandle)
    case _ => 0
  }

  /** The event that made the File that the request borrowed at its enter, if that File is still open at event j. */
  ghost function SourceOf(h: History, j: nat, handle: Handle): (r: Option<nat>)
    requires j < |h|
    ensures r.Some? ==> r.value < j
    decreases j, 4
  {
    match EnterOf(h, j)
    case None => None
    case Some(i) =>
      match FileAt(h, i, h[i].ctx, handle)
      case None => None
      case Some(k) => if FileAt(h, j, h[j].ctx, NewHandle(h, k)) == Some(k) then Some(k) else None
  }

  /** Event j makes handle fd of process c a new File: it opens one, or duplicates one that is open. */
  ghost predicate Opens(h: History, j: nat, c: Word64, fd: Handle)
    requires j < |h|
    decreases j, 5
  {
    h[j].ctx == c &&
    match Done(h, j)
    case OpenFile(phandle, _) => Out(h, j, phandle) == fd
    case Duplicate(handle, phandle) => SourceOf(h, j, handle).Some? && Out(h, j, phandle) == fd
    case _ => false
  }

  ghost predicate Closes(h: History, j: nat, c: Word64, hd: Handle)
    requires j < |h|
    decreases j, 3
  {
    h[j].ctx == c && Done(h, j) == CloseHandle(hd)
  }

  /** The event that made file handle fd of process c what it is before event n. */
  ghost function FileAt(h: History, n: nat, c: Word64, fd: Handle): (r: Option<nat>)
    requires n <= |h|
    ensures r.Some? ==> r.value < n && Opens(h, r.value, c, fd)
    decreases n, 0
  {
    if n == 0 then None
    else if Opens(h, n - 1, c, fd) then Some(n - 1)
    else if Closes(h, n - 1, c, fd) then None
    else FileAt(h, n - 1, c, fd)
  }

  /** The name of the File that event k makes: the path of the open, or the name of the File that is duplicated. */
  ghost function NameOf(h: History, k: nat): CString
    requires k < |h|
  {
    match Done(h, k)
    case OpenFile(_, path) => path
    case Duplicate(handle, _) =>
      (match SourceOf(h, k, handle) case Some(m) => NameOf(h, m) case None => Null)
    case _ => Null
  }

  // ----- sections -----

  /** Event j creates a section, of a file that is open. */
  ghost predicate MakesSection(h: History, j: nat)
    requires j < |h|
    decreases j, 5
  {
    Done(h, j).CreateSection? && SourceOf(h, j, Done(h, j).hfile).Some?
  }

  ghost predicate MakesNamed(h: History, j: nat, name: seq<Byte>)
    requires j < |h|
    decreases j, 6
  {
    MakesSection(h, j) && Done(h, j).name == Text(name)
  }

  /** The event that last created a section of this name. */
  ghost function NamedAt(h: History, n: nat, name: seq<Byte>): (r: Option<nat>)
    requires n <= |h|
    ensures r.Some? ==> r.value < n && MakesNamed(h, r.value, name)
    decreases n, 0
  {
    if n == 0 then None else if MakesNamed(h, n - 1, name) then Some(n - 1) else NamedAt(h, n - 1, name)
  }

  /** Two sections of this name were created, so that the key of its entry was freed. */
  ghost predicate FreedAt(h: History, n: nat, name: seq<Byte>)
    requires n <= |h|
    decreases n, 0
  {
    n > 0 && (FreedAt(h, n - 1, name) || (MakesNamed(h, n - 1, name) && NamedAt(h, n - 1, name).Some?))
  }

  /** The event that created the section to which event j binds handle hd of process c. */
  ghost function Binds(h: History, j: nat, c: Word64, hd: Handle): (r: Option<nat>)
    requires j < |h|
    ensures r.Some? ==> r.value <= j && MakesSection(h, r.value)
    decreases j, 7
  {
    if h[j].ctx != c then None
    else match Done(h, j)
      case CreateSection(phandle, _, _) => if MakesSection(h, j) && Out(h, j, phandle) == hd then Some(j) else None
      case OpenSection(phandle, name) =>
        if Out(h, j, phandle) == hd && name.Text? && name.bytes != [] && !FreedAt(h, j, name.bytes)
        then NamedAt(h, j, name.bytes) else None
      case _ => None
  }

  /** The event that created the section which handle hd of process c means before event n. */
  ghost function SectionAt(h: History, n: nat, c: Word64, hd: Handle): (r: Option<nat>)
    requires n <= |h|
    ensures r.Some? ==> r.value < n && MakesSection(h, r.value)
    decreases n, 0
  {
    if n == 0 then None
    else if Binds(h, n - 1, c, hd).Some? then Binds(h, n - 1, c, hd)
    else if Closes(h, n - 1, c, hd) then None
    else SectionAt(h, n - 1, c, hd)
  }

  // ----- which event that is -----

  /** Event k changes what file handle fd of process c means. */
  ghost predicate ChangesFile(h: History, k: nat, c: Word64, fd: Handle)
    requires k < |h|
  {
    Opens(h, k, c, fd) || Closes(h, k, c, fd)
  }

  /** A handle is open exactly when some event opened it and no later one opened or closed it. */
  lemma {:induction false} FileIsLastOpened(h: History, n: nat, c: Word64, fd: Handle, j: nat)
    requires n <= |h|
    ensures FileAt(h, n, c, fd) == Some(j) <==>
            j < n && Opens(h, j, c, fd) && forall k :: j < k < n ==> !ChangesFile(h, k, c, fd)
    decreases n
  {
    if n > 0 {
      hide Opens, Closes;
      FileIsLastOpened(h, n - 1, c, fd, j);
      assert !ChangesFile(h, n - 1, c, fd) ==> FileAt(h, n, c, fd) == FileAt(h, n - 1, c, fd);
    }
  }

  /** Event k changes what section handle hd of process c means. */
  ghost predicate ChangesSection(h: History, k: nat, c: Word64, hd: Handle)
    requires k < |h|
  {
    Binds(h, k, c, hd).Some? || Closes(h, k, c, hd)
  }

  /** Event j binds the handle to the section that event m creates, and no event from j to n changes it again. */
  ghost predicate BoundSince(h: History, j: nat, n: nat, c: Word64, hd: Handle, m: nat)
    requires n <= |h|
  {
    j < n && Binds(h, j, c, hd) == Some(m) && forall k :: j < k < n ==> !ChangesSection(h, k, c, hd)
  }

  /** A section handle means what the last event that bound it made it mean, unless it was closed since. */
  lemma {:induction false} SectionIsLastBound(h: History, n: nat, c: Word64, hd: Handle, m: nat)
    requires n <= |h|
    ensures SectionAt(h, n, c, hd) == Some(m) <==> exists j: nat :: BoundSince(h, j, n, c, hd, m)
    decreases n
  {
    hide Binds, Closes;
    if n > 0 {
      var past := n - 1;
      SectionIsLastBound(h, past, c, hd, m);
      if ChangesSection(h, past, c, hd) {
        assert Binds(h, past, c, hd) == Some(m) ==> BoundSince(h, past, n, c, hd, m);
      } else {
        assert SectionAt(h, n, c, hd) == SectionAt(h, past, c, hd);
        if j: nat :| BoundSince(h, j, past, c, hd, m) {
          assert BoundSince(h, j, n, c, hd, m);
        }
        if j: nat :| BoundSince(h, j, n, c, hd, m) {
          assert BoundSince(h, j, past, c, hd, m);
        }
      }
    }
  }

  // ----- the state after a run -----

  /** How the object that event k makes is named. */
  ghost function IdOf(h: History, k: nat): Id
    requires k < |h|
  {
    Id(h[k].ctx, Count(h, k, h[k].ctx))
  }

  /** The record that the enter at i leaves. */
  ghost function RecordOf(h: History, i: nat): Params
    requires i < |h| && Recorded(h, i)
  {
    var c := h[i].ctx;
    match h[i].request
    case CloseHandle(handle) => CloseParams(handle)
    case OpenFile(phandle, path) => FileParams(phandle, path)
    case CreateSection(phandle, name, hfile) => SectionParams(phandle, name, Count(h, FileAt(h, i, c, hfile).value, c))
    case OpenSection(phandle, name) => OpenSectionParams(phandle, name)
    case MapView(hsection, pbase, psize) => MapSectionParams(IdOf(h, SectionAt(h, i, c, hsection).value), pbase, psize)
    case UnmapView(base) => UnmapParams(base)
    case Duplicate(handle, phandle) => DuplicateParams(Count(h, FileAt(h, i, c, handle).value, c), phandle)
    case QueryProcess(info) => QueryParams(info)
  }

  ghost predicate PendingMatches(h: History, n: nat, c: Word64, p: WinProc)
    requires n <= |h|
  {
    && (forall sp :: sp in p.syscalls <==> PendingAt(h, n, c, sp).Some?)
    && (forall sp :: sp in p.syscalls ==> p.syscalls[sp] == RecordOf(h, PendingAt(h, n, c, sp).value))
  }

  /** The handles, and the Files that are alive: those that a handle means, with their names. */
  ghost predicate FilesMatch(h: History, n: nat, c: Word64, p: WinProc)
    requires n <= |h|
  {
    && (forall fd :: fd in p.files <==> FileAt(h, n, c, fd).Some?)
    && (forall fd :: fd in p.files ==>
                       var k := FileAt(h, n, c, fd).value;
                       p.files[fd] == Count(h, k, c) && p.files[fd] in p.live && p.live[p.files[fd]] == NameOf(h, k))
    && (forall id :: id in p.live ==> exists fd :: fd in p.files && p.files[fd] == id)
  }

  ghost predicate SectionsMatch(h: History, n: nat, c: Word64, p: WinProc)
    requires n <= |h|
  {
    && (forall hd :: hd in p.sections <==> SectionAt(h, n, c, hd).Some?)
    && (forall hd :: hd in p.sections ==> p.sections[hd] == IdOf(h, SectionAt(h, n, c, hd).value))
  }

  /** The section that event m creates: its name, and the name of the file. */
  ghost function SectionOf(h: History, m: nat): Section
    requires m < |h| && MakesSection(h, m)
  {
    Section(Done(h, m).name, NameOf(h, SourceOf(h, m, Done(h, m).hfile).value))
  }

  /** The section that event m creates has not been destroyed by another of its name. */
  ghost predicate Exists(h: History, n: nat, m: nat)
    requires m < n <= |h| && MakesSection(h, m)
  {
    var name := SectionOf(h, m).name;
    name.Text? && name.bytes != [] ==> NamedAt(h, n, name.bytes) == Some(m)
  }

  ghost predicate SharedMatches(h: History, n: nat, s: Shared)
    requires n <= |h|
  {
    && (forall name :: name in s.named <==> name != [] && NamedAt(h, n, name).Some?)
    && (forall name :: name in s.named ==> s.named[name] == IdOf(h, NamedAt(h, n, name).value))
    && (forall name :: name in s.freed <==> name != [] && FreedAt(h, n, name))
    && (forall m: nat :: m < n && MakesSection(h, m) ==> (IdOf(h, m) in s.objects <==> Exists(h, n, m)))
    && (forall m: nat :: m < n && MakesSection(h, m) && IdOf(h, m) in s.objects ==>
                           s.objects[IdOf(h, m)] == SectionOf(h, m))
  }

  ghost predicate Matches(h: History, n: nat)
    requires n <= |h|
  {
    var w := Run(h, n);
    && SharedMatches(h, n, w.shared)
    && forall c :: Get(w, c).clock == Count(h, n, c) && PendingMatches(h, n, c, Get(w, c))
                   && FilesMatch(h, n, c, Get(w, c)) && SectionsMatch(h, n, c, Get(w, c))
  }

  // ----- events have different numbers -----

  lemma {:induction false} CountGrows(h: History, k: nat, n: nat, c: Word64)
    requires k <= n <= |h|
    ensures Count(h, k, c) <= Count(h, n, c)
    ensures k < n && h[k].ctx == c ==> Count(h, k, c) < Count(h, n, c)
    decreases n
  {
    if k < n {
      CountGrows(h, k, n - 1, c);
    }
  }

  lemma SameCount(h: History, k: nat, m: nat, c: Word64)
    requires k < |h| && m < |h| && h[k].ctx == c && h[m].ctx == c && Count(h, k, c) == Count(h, m, c)
    ensures k == m
  {
    if k < m {
      CountGrows(h, k, m, c);
    } else {
      CountGrows(h, m, k, c);
    }
  }

  lemma SameId(h: History, k: nat, m: nat)
    requires k < |h| && m < |h| && IdOf(h, k) == IdOf(h, m)
    ensures k == m
  {
    SameCount(h, k, m, h[k].ctx);
  }

  // ----- files, event by event -----

  lemma OpensHandle(h: History, k: nat, c: Word64, fd: Handle)
    requires k < |h| && Opens(h, k, c, fd)
    ensures h[k].ctx == c && fd == NewHandle(h, k) && !Closes(h, k, c, fd)
  {}

  /** Handles mean different Files. */
  lemma HandlesDiffer(h: History, n: nat, c: Word64, p: WinProc, fd: Handle, fd': Handle)
    requires n <= |h| && FilesMatch(h, n, c, p)
    requires fd in p.files && fd' in p.files && p.files[fd] == p.files[fd']
    ensures fd == fd'
  {
    hide Opens, NewHandle;
    var k, m := FileAt(h, n, c, fd).value, FileAt(h, n, c, fd').value;
    OpensHandle(h, k, c, fd);
    OpensHandle(h, m, c, fd');
    SameCount(h, k, m, c);
  }

  /** A File is alive exactly while its handle means it. */
  lemma AliveExactly(h: History, n: nat, c: Word64, p: WinProc, k: nat, fd: Handle)
    requires k < n <= |h| && FilesMatch(h, n, c, p) && Opens(h, k, c, fd)
    ensures Count(h, k, c) in p.live <==> FileAt(h, n, c, fd) == Some(k)
    ensures Count(h, k, c) in p.live ==> p.live[Count(h, k, c)] == NameOf(h, k)
  {
    hide Opens, NewHandle, NameOf;
    OpensHandle(h, k, c, fd);
    if Count(h, k, c) in p.live {
      var fd' :| fd' in p.files && p.files[fd'] == Count(h, k, c);
      var m := FileAt(h, n, c, fd').value;
      OpensHandle(h, m, c, fd');
      SameCount(h, k, m, c);
    }
  }

  /** The live Files without the one that handle fd means. */
  function Without(p: WinProc, fd: Handle): map<nat, CString> {
    if fd in p.files then p.live - {p.files[fd]} else p.live
  }

  lemma HandlesOpened(h: History, j: nat, c: Word64, fd: Handle)
    requires j < |h| && Opens(h, j, c, fd)
    ensures FileAt(h, j + 1, c, fd) == Some(j)
    ensures forall x :: x != fd ==> FileAt(h, j + 1, c, x) == FileAt(h, j, c, x)
  {
    hide Opens, Closes;
    forall x | x != fd
      ensures FileAt(h, j + 1, c, x) == FileAt(h, j, c, x)
    {
      OtherHandle(h, j, c, fd, x);
    }
  }

  lemma OlderFile(h: History, j: nat, c: Word64, p: WinProc, x: Handle)
    requires j <= |h| && FilesMatch(h, j, c, p) && x in p.files
    ensures p.files[x] < Count(h, j, c)
  {
    hide Opens, NameOf;
    OpensHandle(h, FileAt(h, j, c, x).value, c, x);
    CountGrows(h, FileAt(h, j, c, x).value, j, c);
  }

  /** Each live File has its handle, and the handles have live Files. */
  ghost predicate OneEach(p: WinProc) {
    && (forall x :: x in p.files ==> p.files[x] in p.live)
    && (forall x, y :: x in p.files && y in p.files && p.files[x] == p.files[y] ==> x == y)
    && (forall id :: id in p.live ==> exists x :: x in p.files && p.files[x] == id)
  }

  lemma FilesAreOneEach(h: History, n: nat, c: Word64, p: WinProc)
    requires n <= |h| && FilesMatch(h, n, c, p)
    ensures OneEach(p)
  {
    hide FileAt, NameOf, Count;
    forall x, y | x in p.files && y in p.files && p.files[x] == p.files[y]
      ensures x == y
    {
      HandlesDiffer(h, n, c, p, x, y);
    }
  }

  lemma OneLess(p: WinProc, q: WinProc, fd: Handle)
    requires OneEach(p) && q.files == p.files - {fd} && q.live == Without(p, fd)
    ensures OneEach(q) && forall x :: x in q.files ==> q.live[p.files[x]] == p.live[p.files[x]]
  {
    forall id | id in q.live
      ensures exists x :: x in q.files && q.files[x] == id
    {
      var x :| x in p.files && p.files[x] == id;
      assert q.files[x] == id;
    }
  }

  lemma OneAdded(p: WinProc, q: WinProc, fd: Handle, id: nat, name: CString)
    requires OneEach(p) && id !in p.live && q.files == p.files[fd := id] && fd !in p.files
    requires q.live == p.live[id := name]
    ensures OneEach(q)
  {
    forall n | n in q.live
      ensures exists x :: x in q.files && q.files[x] == n
    {
      if n == id {
        assert q.files[fd] == n;
      } else {
        var x :| x in p.files && p.files[x] == n;
        assert q.files[x] == n;
      }
    }
  }

  lemma OneMore(p: WinProc, q: WinProc, fd: Handle, name: CString)
    requires OneEach(p) && forall x :: x in p.files ==> p.files[x] < p.clock
    requires q.files == p.files[fd := p.clock] && q.live == Without(p, fd)[p.clock := name]
    ensures OneEach(q) && forall x :: x in p.files && x != fd ==> q.live[p.files[x]] == p.live[p.files[x]]
  {
    var r := p.(files := p.files - {fd}, live := Without(p, fd));
    OneLess(p, r, fd);
    hide OneEach;
    assert p.clock !in p.live by {
      assert OneEach(p);
      NotAlive(p);
    }
    assert r.files[fd := p.clock] == q.files;
    OneAdded(r, q, fd, p.clock, name);
  }

  lemma NotAlive(p: WinProc)
    requires OneEach(p) && forall x :: x in p.files ==> p.files[x] < p.clock
    ensures p.clock !in p.live
  {}

  lemma FilesOpened(h: History, j: nat, c: Word64, p: WinProc, q: WinProc, fd: Handle)
    requires j < |h| && FilesMatch(h, j, c, p) && Count(h, j, c) == p.clock && Opens(h, j, c, fd)
    requires q.files == p.files[fd := p.clock] && q.live == Without(p, fd)[p.clock := NameOf(h, j)]
    ensures FilesMatch(h, j + 1, c, q)
  {
    hide Opens, NameOf, FileAt, Without, Count;
    HandlesOpened(h, j, c, fd);
    FilesAreOneEach(h, j, c, p);
    forall x | x in p.files
      ensures p.files[x] < p.clock
    {
      OlderFile(h, j, c, p, x);
    }
    OneMore(p, q, fd, NameOf(h, j));
    assert q.live[p.clock] == NameOf(h, j);
  }

  lemma OtherHandle(h: History, j: nat, c: Word64, fd: Handle, x: Handle)
    requires j < |h| && (Opens(h, j, c, fd) || Closes(h, j, c, fd)) && x != fd
    ensures !Opens(h, j, c, x) && !Closes(h, j, c, x)
  {}

  lemma HandleClosed(h: History, j: nat, c: Word64, fd: Handle)
    requires j < |h| && Closes(h, j, c, fd)
    ensures FileAt(h, j + 1, c, fd) == None
    ensures forall x :: x != fd ==> FileAt(h, j + 1, c, x) == FileAt(h, j, c, x)
  {
    hide Opens, Closes;
    ClosesOnly(h, j, c, fd);
    forall x | x != fd
      ensures FileAt(h, j + 1, c, x) == FileAt(h, j, c, x)
    {
      OtherHandle(h, j, c, fd, x);
    }
  }

  lemma ClosesOnly(h: History, j: nat, c: Word64, fd: Handle)
    requires j < |h| && Closes(h, j, c, fd)
    ensures !Opens(h, j, c, fd)
  {}

  lemma FilesClosed(h: History, j: nat, c: Word64, p: WinProc, q: WinProc, fd: Handle)
    requires j < |h| && FilesMatch(h, j, c, p) && Closes(h, j, c, fd)
    requires q.files == p.files - {fd} && q.live == Without(p, fd)
    ensures FilesMatch(h, j + 1, c, q)
  {
    hide Closes, NameOf, FileAt, Without, Count;
    HandleClosed(h, j, c, fd);
    FilesAreOneEach(h, j, c, p);
    OneLess(p, q, fd);
  }

  lemma FilesKept(h: History, j: nat, c: Word64, p: WinProc, q: WinProc)
    requires j < |h| && FilesMatch(h, j, c, p) && q.files == p.files && q.live == p.live
    requires forall fd :: !ChangesFile(h, j, c, fd)
    ensures FilesMatch(h, j + 1, c, q)
  {
    hide Opens, NewHandle, NameOf, Closes;
    forall fd
      ensures FileAt(h, j + 1, c, fd) == FileAt(h, j, c, fd)
    {
      assert !ChangesFile(h, j, c, fd);
    }
  }

  /** What an exit does to the handle table and the Files of its process: only these three requests touch them. */
  lemma FinishFiles(p: WinProc, s: Shared, params: Params, e: Event)
    requires e.Exit?
    ensures var q := Finish(p, s, params, e);
            if e.ret != 0 then q.files == p.files && q.live == p.live
            else match params
              case CloseParams(fd) => q.files == p.files - {fd} && q.live == Without(p, fd)
              case FileParams(phandle, name) =>
                var fd := ReadOut(e, phandle);
                q.files == p.files[fd := p.clock] && q.live == Without(p, fd)[p.clock := name]
              case DuplicateParams(file, phandle) =>
                var fd := ReadOut(e, phandle);
                if file in p.live then
                  q.files == p.files[fd := p.clock] && q.live == Without(p, fd)[p.clock := p.live[file]]
                else q.files == p.files && q.live == p.live
              case _ => q.files == p.files && q.live == p.live
  {
    hide ReadOut, MappingCreate, MappingDelete, SectionOpen, FileOpen, FileClose;
    match params
    case CloseParams(fd) => FileCloses(p, fd);
    case FileParams(phandle, name) => FileOpens(p, name, ReadOut(e, phandle));
    case DuplicateParams(file, phandle) =>
      if file in p.live {
        FileOpens(p, p.live[file], ReadOut(e, phandle));
      }
    case OpenSectionParams(phandle, name) => SectionOpenFiles(p, s, name, ReadOut(e, phandle));
    case MapSectionParams(id, pbase, psize) =>
      if id in s.objects {
        CreateFiles(p, s.objects[id].filename, ReadOut(e, pbase), ReadOut(e, psize));
      }
    case UnmapParams(base) => DeleteFiles(p, base, e.found);
    case QueryParams(info) =>
      DeleteFiles(p.(pid := ReadOut(e, Add64(info, if e.os == WinXP then 16 else 32))), info, e.found);
    case _ =>
  }

  lemma FileCloses(p: WinProc, fd: Handle)
    ensures var q := FileClose(p, fd); q.files == p.files - {fd} && q.live == Without(p, fd) && q.clock == p.clock
  {}

  lemma FileOpens(p: WinProc, name: CString, fd: Handle)
    ensures var q := FileOpen(p, name, fd);
            q.files == p.files[fd := p.clock] && q.live == Without(p, fd)[p.clock := name]
  {
    hide FileClose;
    FileCloses(p, fd);
    assert (p.files - {fd})[fd := p.clock] == p.files[fd := p.clock];
  }

  lemma SectionOpenFiles(p: WinProc, s: Shared, name: CString, hd: Handle)
    ensures var q := SectionOpen(p, s, name, hd); q.files == p.files && q.live == p.live
  {}

  lemma CreateFiles(p: WinProc, f: CString, base: Word64, size: Word64)
    ensures var q := MappingCreate(p, f, base, size); q.files == p.files && q.live == p.live
  {}

  lemma DeleteFiles(p: WinProc, addr: Word64, found: Option<CString>)
    ensures var q := MappingDelete(p, addr, found); q.files == p.files && q.live == p.live
  {}

  /** What event j finds pending in its process. */
  lemma RecordFound(h: History, j: nat, p: WinProc)
    requires j < |h| && PendingMatches(h, j, h[j].ctx, p)
    ensures EnterOf(h, j).Some? <==> h[j].Exit? && h[j].ret == 0 && h[j].sp in p.syscalls
    ensures EnterOf(h, j).None? ==> Done(h, j) == Untracked
    ensures EnterOf(h, j).Some? ==>
              var i := EnterOf(h, j).value;
              p.syscalls[h[j].sp] == RecordOf(h, i) && Done(h, j) == h[i].request
  {}

  /** The File that a request borrowed at its enter is alive at its exit exactly if its handle still means it. */
  lemma SourceAlive(h: History, j: nat, p: WinProc, handle: Handle)
    requires j < |h| && FilesMatch(h, j, h[j].ctx, p) && EnterOf(h, j).Some?
    requires FileAt(h, EnterOf(h, j).value, h[j].ctx, handle).Some?
    ensures var k := FileAt(h, EnterOf(h, j).value, h[j].ctx, handle).value;
            && SourceOf(h, j, handle) == (if Count(h, k, h[j].ctx) in p.live then Some(k) else None)
            && (Count(h, k, h[j].ctx) in p.live ==> p.live[Count(h, k, h[j].ctx)] == NameOf(h, k))
  {
    hide FileAt, NameOf, Opens, NewHandle, FilesMatch;
    var i := EnterOf(h, j).value;
    var k := FileAt(h, i, h[j].ctx, handle).value;
    OpensHandle(h, k, h[j].ctx, handle);
    AliveExactly(h, j, h[j].ctx, p, k, handle);
  }

  /** What an event does to the tables of its process is what the exit handler does. */
  lemma StepFiles(p: WinProc, s: Shared, e: Event)
    ensures var q := ProcAfter(p, s, e);
            if e.Exit? && e.sp in p.syscalls then
              q.files == Finish(p, s, p.syscalls[e.sp], e).files && q.live == Finish(p, s, p.syscalls[e.sp], e).live
            else q.files == p.files && q.live == p.live
  {
    hide Finish;
  }

  lemma NoFileChange(h: History, j: nat, fd: Handle)
    requires j < |h|
    requires !Done(h, j).OpenFile? && !Done(h, j).CloseHandle?
    requires Done(h, j).Duplicate? ==> SourceOf(h, j, Done(h, j).handle).None?
    ensures !ChangesFile(h, j, h[j].ctx, fd)
  {}

  lemma FilesNext(h: History, j: nat, p: WinProc, s: Shared)
    requires j < |h| && PendingMatches(h, j, h[j].ctx, p) && FilesMatch(h, j, h[j].ctx, p)
    requires p.clock == Count(h, j, h[j].ctx)
    ensures FilesMatch(h, j + 1, h[j].ctx, ProcAfter(p, s, h[j]))
  {
    hide FilesMatch, PendingMatches, ProcAfter, Finish, Without, ReadOut, FileAt, ChangesFile;
    var c, e, q := h[j].ctx, h[j], ProcAfter(p, s, h[j]);
    RecordFound(h, j, p);
    StepFiles(p, s, e);
    if EnterOf(h, j).Some? {
      FinishFiles(p, s, p.syscalls[e.sp], e);
    } else if e.Exit? && e.sp in p.syscalls {
      FinishFiles(p, s, p.syscalls[e.sp], e);
    }
    match Done(h, j)
    case OpenFile(phandle, _) =>
      FilesOpened(h, j, c, p, q, ReadOut(e, phandle));
    case CloseHandle(fd) =>
      FilesClosed(h, j, c, p, q, fd);
    case Duplicate(handle, phandle) =>
      SourceAlive(h, j, p, handle);
      if SourceOf(h, j, handle).Some? {
        FilesOpened(h, j, c, p, q, ReadOut(e, phandle));
      } else {
        forall fd ensures !ChangesFile(h, j, c, fd) { NoFileChange(h, j, fd); }
        FilesKept(h, j, c, p, q);
      }
    case _ =>
      forall fd ensures !ChangesFile(h, j, c, fd) { NoFileChange(h, j, fd); }
      FilesKept(h, j, c, p, q);
  }

  // ----- section handles, event by event -----

  lemma BindsOnly(h: History, j: nat, c: Word64, hd: Handle, x: Handle)
    requires j < |h| && ChangesSection(h, j, c, hd) && x != hd
    ensures !ChangesSection(h, j, c, x)
  {}

  lemma SectionsBound(h: History, j: nat, c: Word64, p: WinProc, q: WinProc, hd: Handle, m: nat)
    requires j < |h| && SectionsMatch(h, j, c, p) && Binds(h, j, c, hd) == Some(m)
    requires q.sections == p.sections[hd := IdOf(h, m)]
    ensures SectionsMatch(h, j + 1, c, q)
  {
    hide Binds, Closes;
    forall x | x != hd
      ensures SectionAt(h, j + 1, c, x) == SectionAt(h, j, c, x)
    {
      BindsOnly(h, j, c, hd, x);
    }
  }

  lemma SectionsClosed(h: History, j: nat, c: Word64, p: WinProc, q: WinProc, hd: Handle)
    requires j < |h| && SectionsMatch(h, j, c, p) && Closes(h, j, c, hd) && q.sections == p.sections - {hd}
    ensures SectionsMatch(h, j + 1, c, q)
  {
    assert Binds(h, j, c, hd).None?;
    hide Binds, Closes;
    forall x | x != hd
      ensures SectionAt(h, j + 1, c, x) == SectionAt(h, j, c, x)
    {
      BindsOnly(h, j, c, hd, x);
    }
  }

  lemma SectionsKept(h: History, j: nat, c: Word64, p: WinProc, q: WinProc)
    requires j < |h| && SectionsMatch(h, j, c, p) && q.sections == p.sections
    requires forall hd :: !ChangesSection(h, j, c, hd)
    ensures SectionsMatch(h, j + 1, c, q)
  {
    hide Binds, Closes;
    forall x
      ensures SectionAt(h, j + 1, c, x) == SectionAt(h, j, c, x)
    {
      assert !ChangesSection(h, j, c, x);
    }
  }

  /** The section that an open by this name binds its handle to, if there is one. */
  ghost function Found(h: History, j: nat, name: CString): Option<nat>
    requires j <= |h|
  {
    if name.Text? && name.bytes != [] && !FreedAt(h, j, name.bytes) then NamedAt(h, j, name.bytes) else None
  }

  lemma OpensFound(h: History, j: nat, p: WinProc, s: Shared, name: CString, hd: Handle)
    requires j <= |h| && SharedMatches(h, j, s)
    ensures SectionOpen(p, s, name, hd).sections ==
            match Found(h, j, name) case None => p.sections case Some(m) => p.sections[hd := IdOf(h, m)]
  {
    hide NamedAt, FreedAt, Exists, SectionOf;
  }

  lemma NoSectionChange(h: History, j: nat, hd: Handle)
    requires j < |h|
    requires Done(h, j).CreateSection? ==> !MakesSection(h, j)
    requires Done(h, j).OpenSection? ==> Found(h, j, Done(h, j).name).None?
    requires !Done(h, j).CloseHandle?
    ensures !ChangesSection(h, j, h[j].ctx, hd)
  {}

  lemma StepSections(p: WinProc, s: Shared, e: Event)
    ensures var q := ProcAfter(p, s, e);
            q.sections ==
            if e.Exit? && e.sp in p.syscalls then Finish(p, s, p.syscalls[e.sp], e).sections else p.sections
  {
    hide Finish;
  }

  lemma SectionsNext(h: History, j: nat, p: WinProc, s: Shared)
    requires j < |h| && PendingMatches(h, j, h[j].ctx, p) && FilesMatch(h, j, h[j].ctx, p)
    requires SectionsMatch(h, j, h[j].ctx, p) && SharedMatches(h, j, s)
    requires p.clock == Count(h, j, h[j].ctx)
    ensures SectionsMatch(h, j + 1, h[j].ctx, ProcAfter(p, s, h[j]))
  {
    hide FilesMatch, PendingMatches, SectionsMatch, SharedMatches, ProcAfter, Finish, ReadOut, FileAt, ChangesSection,
      SectionOpen;
    var c, e, q := h[j].ctx, h[j], ProcAfter(p, s, h[j]);
    RecordFound(h, j, p);
    StepSections(p, s, e);
    if e.Exit? && e.sp in p.syscalls {
      FinishSections(p, s, p.syscalls[e.sp], e);
    }
    match Done(h, j)
    case CreateSection(phandle, _, hfile) =>
      SourceAlive(h, j, p, hfile);
      if MakesSection(h, j) {
        SectionsBound(h, j, c, p, q, ReadOut(e, phandle), j);
      } else {
        forall hd ensures !ChangesSection(h, j, c, hd) { NoSectionChange(h, j, hd); }
        SectionsKept(h, j, c, p, q);
      }
    case OpenSection(phandle, name) =>
      OpensFound(h, j, p, s, name, ReadOut(e, phandle));
      if Found(h, j, name).Some? {
        SectionsBound(h, j, c, p, q, ReadOut(e, phandle), Found(h, j, name).value);
      } else {
        forall hd ensures !ChangesSection(h, j, c, hd) { NoSectionChange(h, j, hd); }
        SectionsKept(h, j, c, p, q);
      }
    case CloseHandle(hd) =>
      SectionsClosed(h, j, c, p, q, hd);
    case _ =>
      forall hd ensures !ChangesSection(h, j, c, hd) { NoSectionChange(h, j, hd); }
      SectionsKept(h, j, c, p, q);
  }

  // ----- the shared table, event by event -----

  /** The event completes a creation exactly when the history says so, and of this file. */
  lemma CreationFound(h: History, j: nat, p: WinProc)
    requires j < |h| && PendingMatches(h, j, h[j].ctx, p) && FilesMatch(h, j, h[j].ctx, p)
    ensures Creates(p, h[j]) <==> MakesSection(h, j)
    ensures MakesSection(h, j) ==>
              var r := p.syscalls[h[j].sp];
              r.name == SectionOf(h, j).name && p.live[r.file] == SectionOf(h, j).filename
  {
    hide FilesMatch, PendingMatches, FileAt, NameOf;
    RecordFound(h, j, p);
    if Done(h, j).CreateSection? {
      SourceAlive(h, j, p, Done(h, j).hfile);
    }
  }

  lemma NamesKept(h: History, j: nat, name: seq<Byte>)
    requires j < |h| && !MakesNamed(h, j, name)
    ensures NamedAt(h, j + 1, name) == NamedAt(h, j, name) && FreedAt(h, j + 1, name) == FreedAt(h, j, name)
  {}

  lemma NamesMade(h: History, j: nat, name: seq<Byte>)
    requires j < |h| && MakesNamed(h, j, name)
    ensures NamedAt(h, j + 1, name) == Some(j)
    ensures FreedAt(h, j + 1, name) <==> FreedAt(h, j, name) || NamedAt(h, j, name).Some?
  {}

  lemma MadeNamed(h: History, j: nat, name: seq<Byte>)
    requires j < |h| && MakesSection(h, j)
    ensures MakesNamed(h, j, name) <==> SectionOf(h, j).name == Text(name)
  {}

  lemma NoneMade(h: History, j: nat, name: seq<Byte>)
    requires j < |h| && !MakesSection(h, j)
    ensures !MakesNamed(h, j, name)
  {}

  lemma SharedKept(h: History, j: nat, s: Shared)
    requires j < |h| && SharedMatches(h, j, s) && !MakesSection(h, j)
    ensures SharedMatches(h, j + 1, s)
  {
    hide MakesSection, MakesNamed, NamedAt, FreedAt, SectionOf;
    forall name
      ensures NamedAt(h, j + 1, name) == NamedAt(h, j, name) && FreedAt(h, j + 1, name) == FreedAt(h, j, name)
    {
      NoneMade(h, j, name);
      NamesKept(h, j, name);
    }
  }

  lemma NamesRegistered(h: History, j: nat, s: Shared)
    requires j < |h| && SharedMatches(h, j, s) && MakesSection(h, j)
    ensures var t := Register(s, IdOf(h, j), SectionOf(h, j).name, SectionOf(h, j).filename);
            && (forall name :: name in t.named <==> name != [] && NamedAt(h, j + 1, name).Some?)
            && (forall name :: name in t.named ==> t.named[name] == IdOf(h, NamedAt(h, j + 1, name).value))
            && (forall name :: name in t.freed <==> name != [] && FreedAt(h, j + 1, name))
  {
    hide MakesSection, MakesNamed, SectionOf, NamedAt, FreedAt, IdOf, Exists;
    forall name
      ensures if SectionOf(h, j).name == Text(name) then
                NamedAt(h, j + 1, name) == Some(j)
                && (FreedAt(h, j + 1, name) <==> FreedAt(h, j, name) || NamedAt(h, j, name).Some?)
              else NamedAt(h, j + 1, name) == NamedAt(h, j, name) && FreedAt(h, j + 1, name) == FreedAt(h, j, name)
    {
      MadeNamed(h, j, name);
      if SectionOf(h, j).name == Text(name) {
        NamesMade(h, j, name);
      } else {
        NamesKept(h, j, name);
      }
    }
  }

  /** Which sections exist after event j has created one. */
  lemma ExistsNext(h: History, j: nat, s: Shared, m: nat)
    requires m < j < |h| && SharedMatches(h, j, s) && MakesSection(h, j) && MakesSection(h, m)
    ensures var t := Register(s, IdOf(h, j), SectionOf(h, j).name, SectionOf(h, j).filename);
            && (IdOf(h, m) in t.objects <==> Exists(h, j + 1, m))
            && (IdOf(h, m) in t.objects ==> t.objects[IdOf(h, m)] == SectionOf(h, m))
  {
    hide MakesSection, MakesNamed, SectionOf, NamedAt, FreedAt, IdOf;
    if IdOf(h, m) == IdOf(h, j) {
      SameId(h, m, j);
    }
    var name := SectionOf(h, j).name;
    if Nameable(name) {
      MadeNamed(h, j, name.bytes);
      NamesMade(h, j, name.bytes);
      if name.bytes in s.named && s.named[name.bytes] == IdOf(h, m) {
        SameId(h, m, NamedAt(h, j, name.bytes).value);
        MadeNamed(h, m, name.bytes);
      }
    }
    if Nameable(SectionOf(h, m).name) && SectionOf(h, m).name != name {
      MadeNamed(h, j, SectionOf(h, m).name.bytes);
      NamesKept(h, j, SectionOf(h, m).name.bytes);
    }
  }

  lemma NewExists(h: History, j: nat, s: Shared)
    requires j < |h| && SharedMatches(h, j, s) && MakesSection(h, j)
    ensures var t := Register(s, IdOf(h, j), SectionOf(h, j).name, SectionOf(h, j).filename);
            Exists(h, j + 1, j) && IdOf(h, j) in t.objects && t.objects[IdOf(h, j)] == SectionOf(h, j)
  {
    hide MakesSection, MakesNamed, SectionOf, NamedAt, FreedAt, IdOf;
    var name := SectionOf(h, j).name;
    if Nameable(name) {
      MadeNamed(h, j, name.bytes);
      NamesMade(h, j, name.bytes);
      if name.bytes in s.named && s.named[name.bytes] == IdOf(h, j) {
        SameId(h, j, NamedAt(h, j, name.bytes).value);
      }
    }
  }

  lemma SharedNext(h: History, j: nat, p: WinProc, s: Shared)
    requires j < |h| && PendingMatches(h, j, h[j].ctx, p) && FilesMatch(h, j, h[j].ctx, p)
    requires SharedMatches(h, j, s) && p.clock == Count(h, j, h[j].ctx)
    ensures SharedMatches(h, j + 1, SharedAfter(s, p, h[j]))
  {
    hide FilesMatch, PendingMatches, Register, MakesSection, Exists, SectionOf, NamedAt, FreedAt;
    CreationFound(h, j, p);
    if MakesSection(h, j) {
      assert SharedAfter(s, p, h[j]) == Register(s, IdOf(h, j), SectionOf(h, j).name, SectionOf(h, j).filename);
      NamesRegistered(h, j, s);
      NewExists(h, j, s);
      forall m: nat | m < j && MakesSection(h, m)
        ensures var t := SharedAfter(s, p, h[j]).objects;
                (IdOf(h, m) in t <==> Exists(h, j + 1, m)) && (IdOf(h, m) in t ==> t[IdOf(h, m)] == SectionOf(h, m))
      {
        ExistsNext(h, j, s, m);
      }
    } else {
      SharedKept(h, j, s);
    }
  }

  // ----- records, event by event -----

  lemma RecordMade(h: History, j: nat, p: WinProc)
    requires j < |h| && h[j].Enter? && FilesMatch(h, j, h[j].ctx, p) && SectionsMatch(h, j, h[j].ctx, p)
    ensures EnterParams(p, h[j].request) == if Recorded(h, j) then Some(RecordOf(h, j)) else None
  {
    hide FileAt, SectionAt, IdOf, NameOf, Count;
  }

  lemma StepRecords(p: WinProc, s: Shared, e: Event)
    ensures var t := ProcAfter(p, s, e).syscalls;
            if e.Exit? then t == p.syscalls - {e.sp}
            else match EnterParams(p, e.request) case None => t == p.syscalls case Some(r) => t == p.syscalls[e.sp := r]
  {
    hide Finish, EnterParams;
    if e.Exit? && e.sp in p.syscalls {
      FinishSections(p, s, p.syscalls[e.sp], e);
    }
  }

  lemma PendingNext(h: History, j: nat, p: WinProc, s: Shared)
    requires j < |h| && PendingMatches(h, j, h[j].ctx, p) && FilesMatch(h, j, h[j].ctx, p)
    requires SectionsMatch(h, j, h[j].ctx, p)
    ensures PendingMatches(h, j + 1, h[j].ctx, ProcAfter(p, s, h[j]))
  {
    hide ProcAfter, FilesMatch, SectionsMatch, Recorded, RecordOf, EnterParams;
    var c, e := h[j].ctx, h[j];
    StepRecords(p, s, e);
    if e.Enter? {
      RecordMade(h, j, p);
    } else {
      NotRecorded(h, j);
    }
    forall sp
      ensures PendingAt(h, j + 1, c, sp) ==
              if sp != e.sp then PendingAt(h, j, c, sp)
              else if e.Exit? then None
              else if Recorded(h, j) then Some(j) else PendingAt(h, j, c, sp)
    {}
  }

  lemma NotRecorded(h: History, j: nat)
    requires j < |h| && h[j].Exit?
    ensures !Recorded(h, j)
  {}

  /** Events of other processes do not matter. */
  lemma OthersKeep(h: History, j: nat, c: Word64, p: WinProc)
    requires j < |h| && c != h[j].ctx
    ensures PendingMatches(h, j, c, p) ==> PendingMatches(h, j + 1, c, p)
    ensures FilesMatch(h, j, c, p) ==> FilesMatch(h, j + 1, c, p)
    ensures SectionsMatch(h, j, c, p) ==> SectionsMatch(h, j + 1, c, p)
    ensures Count(h, j + 1, c) == Count(h, j, c)
  {
    hide Recorded, NameOf, RecordOf, IdOf;
    forall sp
      ensures PendingAt(h, j + 1, c, sp) == PendingAt(h, j, c, sp)
    {}
    forall fd
      ensures FileAt(h, j + 1, c, fd) == FileAt(h, j, c, fd) && SectionAt(h, j + 1, c, fd) == SectionAt(h, j, c, fd)
    {}
  }

  // ----- whole runs -----

  lemma StartMatches(h: History)
    ensures Matches(h, 0)
  {
    RunStarts(h);
  }

  lemma StepMatches(h: History, j: nat, c: Word64)
    requires j < |h| && Matches(h, j)
    ensures var p := Get(Run(h, j + 1), c);
            && p.clock == Count(h, j + 1, c) && PendingMatches(h, j + 1, c, p)
            && FilesMatch(h, j + 1, c, p) && SectionsMatch(h, j + 1, c, p)
  {
    hide PendingMatches, FilesMatch, SectionsMatch, SharedMatches, Run, SharedAfter, EnterStep, ExitStep;
    var w, e := Run(h, j), h[j];
    var p := Get(w, e.ctx);
    RunContinues(h, j);
    if c == e.ctx {
      PendingNext(h, j, p, w.shared);
      FilesNext(h, j, p, w.shared);
      SectionsNext(h, j, p, w.shared);
    } else {
      OthersKeep(h, j, c, Get(w, c));
    }
  }

  /**
   After every run the pending records, file handles and Files, section handles, named sections and freed names of all
   processes are the ones that the history describes.
   */
  lemma {:induction false} RunMatches(h: History, n: nat)
    requires n <= |h|
    ensures Matches(h, n)
    decreases n
  {
    hide PendingMatches, FilesMatch, SectionsMatch, SharedMatches, Run, ProcAfter, SharedAfter, Count;
    if n == 0 {
      StartMatches(h);
    } else {
      var j := n - 1;
      RunMatches(h, j);
      forall c
        ensures var p := Get(Run(h, n), c);
                && p.clock == Count(h, n, c) && PendingMatches(h, n, c, p)
                && FilesMatch(h, n, c, p) && SectionsMatch(h, n, c, p)
      {
        StepMatches(h, j, c);
      }
      RunContinues(h, j);
      SharedNext(h, j, Get(Run(h, j), h[j].ctx), Run(h, j).shared);
    }
  }
}
