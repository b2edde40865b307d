# The introspection plugin, modelled and proved

The QEMU introspection plugin watches a guest from outside. It decodes system calls at their entry and return
instructions, keeps per-process tables of open files, named sections and mapped files, and parses the ELF or PE image
of a mapped file the first time code in it runs, to name the functions it sees. This project models that logic in
Dafny and proves what the tables mean, over whole runs.

`dafny verify dfyconfig.toml` checks everything.

## How the project is laid out

- **Mapping store** (`SearchTree`, `MappingStore`, `StoreRuns`): `mapping.c` as heap objects. The address index is a
  search tree of references to mutable `Mapping` objects, taken out of the tree, widened in place and filed again.
  GLib's balancing is an arbitrary list of rotations handed to each insertion and removal, so every result holds for
  every shape the tree may have. The main result is `StoreRuns.Replay`: over any run of create, delete and find in
  which the intervals stay non-empty, non-wrapping and disjoint, the two indexes behave as one table
  file name -> interval. `MappingStore.Store.Create` says exactly when one call keeps the indexes in agreement: no
  other file ends up with the same base and size. A hull extension that swallows another file's range, or lands on it,
  is therefore not hidden: it makes the discipline, or `Unshared`, false. `StoreRuns.ReplayOverlapping` covers all runs
  without such a collision, disjoint or not.
- **Modules of mappings** (`StoreModules`, `ModuleRuns`): `module.c` on the objects of the store, for either image
  format: over runs in which mappings are also deleted and made again, `ModuleRuns.ParsedExactly` says when one is
  marked parsed.
- **Image readers** (`GuestMemory`, `FunctionTable`, `ImageReading`, `WalkProperties`, `BytesInImage`, `FileBytes`,
  `ElfReader`, `ElfProperties`, `ElfRelocation`, `ElfLayout`, `ElfVerdicts`, `ElfEncoding`, `ElfExample`, `PeReader`,
  `PeProperties`, `PeLayout`, `PeVerdicts`, `PeEncoding`): guest memory is a partial map from address to byte. Both
  parsers are loops over failing reads, proved against `Parse` and `ParsePe`. About these are proved: convergence of
  retries, which headers and table entries count, the exact function table, insensitivity to relocation, and, from
  byte layouts of ELF32, ELF64, PE32 and PE32+ files, that a file laid out in memory is parsed successfully into
  exactly its functions; files of all four kinds are also written out and read back. The layouts, the conditions on
  symbols and the names are written with the numbers of the formats, and `ElfExample` gives two whole files byte by
  byte. The `Verdicts` modules say how an attempt that adds nothing ends, cause by cause. The layouts are those of the
  ELF gABI (chapter 4, ELF Header and Symbol Table; chapter 5, Program Header and Dynamic Section) and of the
  Microsoft PE Format (Optional Header Data Directories; The .edata Section).
- **Linux processes** (`LinuxProcess`, `LinuxHistory`, `LinuxCalls`, `LinuxPairing`, `LinuxOwnership`, `LinuxProvenance`,
  `LinuxModules`, `LinuxRetries`): one process is a state machine over Enter, Exit and BeforeTb events. `LinuxHistory`
  describes the tables by the history alone, and proves that every run has those tables; pairing, ownership,
  provenance, the parse-once life cycle and the convergence of retries follow. `LinuxCalls` says call by call, with the
  call's own number and result, what it does between its enter and its return. Properties that fail for some runs are
  stated as equivalences, each with an example run: which exits process their own enter (`OwnEnterExactly`), what
  becomes of each pending record (`RecordFate`), which strings are lost (`LostExactly`), when a borrowed `File` is used
  after it was destroyed (`DanglingExactly`), and when a mapping is destroyed because another file took its interval
  (`ClashExactly`).
- **Linux objects** (`LinuxObjects`, `Plugin`, `LinuxTracer`): the same as C keeps it. A `Process` object holds a
  `Store`, a `Functions` table and `OpenFile` objects that own their names; a pending mmap borrows one of these. A
  translation block calls `Store.Find` and `ParseHeaderElf`. Every method is proved to take the process where the state
  machine takes it, and the plugin's process table keeps the processes' objects apart.
- **Windows processes** (`WindowsSections`, `WindowsHistory`, `WindowsViews`, `WindowsSharing`,
  `WindowsInterleaving`): file handles, named sections shared between processes, views, and the fallthrough of the XP
  process query. `WindowsHistory` describes records, handles, Files, sections and freed names of all processes by the
  history of their requests, and proves that every run has them; `WindowsViews` does so for mappings and process
  numbers. From this follow views across processes (`CrossProcessView`) and exactly which runs use freed memory
  (`WindowsSharing.DanglingExactly`). `WindowsInterleaving` says how far processes are independent.
- **Wide strings** (`WideString`): `vmi_strdupw`, with the exact conditions under which its second pass stays inside the
  buffer, and under which the two passes agree. The byte forms are those of RFC 3629, section 3, applied unit by unit.

## Where the model follows the code rather than its intent

- On 32-bit guests `retval != -1UL` always holds, and on 64-bit ones a negative error number passes too: `MmapOk` says
  so, and a failed mmap creates a mapping at the error value.
- An enter that leaves no record does not remove an older one at its stack pointer; `LinuxPairing.StaleRecordExample`
  is such a run.
- `g_tree_insert` at a taken (base, size) keeps the old key object and destroys the old value: `SearchTree.Insert`. In
  the process machines the mapping that had the interval disappears and `clashed` is set. As Linux munmap is not
  followed, two files mapped to one place one after the other are enough: `LinuxProvenance.ClashExample`. What follows
  from mappings is stated for runs without a clash.
- The XP `NtQueryInformationProcess` case runs on into `NtUnmapViewOfSection`:
  `WindowsSections.QueryKeepsMappingsExactly`.
- The loop variable of `vmi_strdupw` is not initialised; its first value is the parameter `c0`. The second pass starts
  with what the first one left in it, so a string whose first unit is unreadable may need more bytes than were counted:
  `WideString.SecondPassTooLongExample`.
- When a section name is created a second time, the entry of the table of sections keeps the key that
  `section_destroy` frees with the first section, and every later lookup of the name compares with it. The model keeps
  these names in `freed` and sets `dangling` at such a lookup: `WindowsSharing.FreedKeyExample`. What is said about
  several processes is said for runs in which nothing freed is used (`WindowsSections.Defined`).

## Model

| member | source | states |
|---|---|---|
| SearchTree.RebalanceKeeps | qemu-plugins/introspection/mapping.c:45-52 | any sequence of rotations keeps the nodes and the key order, so nothing below depends on the tree's shape |
| SearchTree.LookupExact | qemu-plugins/introspection/mapping.c:12-25 | the descent by mapping_compare finds exactly the node whose key has the same base and size |
| SearchTree.InsertFree | qemu-plugins/introspection/mapping.c:78-86 | an insertion at a free (base, size) adds exactly one node and keeps the order |
| SearchTree.InsertTaken | qemu-plugins/introspection/mapping.c:78-86 | an insertion at a taken (base, size) replaces the value beside the old key object, changes no other node and keeps the order |
| SearchTree.RemoveExact | qemu-plugins/introspection/mapping.c:67-103 | steal and remove drop exactly the nodes with the given (base, size) and keep the order |
| SearchTree.FileExact | qemu-plugins/introspection/mapping.c:78-86 | filing an object leaves an exact index if and only if no other live object has its (base, size) |
| SearchTree.StealFromIndex | qemu-plugins/introspection/mapping.c:67 | after a steal the tree is an exact index of all the other objects |
| SearchTree.SearchSound | qemu-plugins/introspection/mapping.c:32-43 | on every shape a hit has base <= addr < base + size, in 64-bit arithmetic |
| SearchTree.SearchComplete | qemu-plugins/introspection/mapping.c:32-43 | with non-decreasing interval ends the binary search hits if and only if some interval has base <= addr < base + size |
| SearchTree.ProbeExactly | qemu-plugins/introspection/mapping.c:32-43 | mapping_search answers 0 from the base on, up to the byte before the end |
| MappingStore.AnswerByAddress | qemu-plugins/introspection/mapping.c:91-95 | an answer of mapping_find has base <= addr < base + size, and with ends in (base, size) order no answer means that no mapping has |
| MappingStore.EndsInOrderExactly | qemu-plugins/introspection/mapping.c:12-25 | the order in which the ends must not decrease is that of the bases, and of the sizes where bases are equal |
| MappingStore.OwnerByAddress | qemu-plugins/introspection/mapping.c:91-95 | on separated intervals the owner of an address is exactly the file with base <= addr < base + size |
| MappingStore.SeparatedIsUnambiguous | qemu-plugins/introspection/mapping.c:32-43 | disjoint intervals have non-decreasing ends and at most one owner per address |
| MappingStore.CreatedByEnds | qemu-plugins/introspection/mapping.c:61-89 | in 64-bit arithmetic, wrapped or not, a file that is mapped again gets the lower base and the greater end; a new file gets the interval as given, and other files keep theirs |
| MappingStore.Store.Create | qemu-plugins/introspection/mapping.c:61-89 | the table afterwards is the old one with the file's hull, objects and modules survive, and the indexes agree if and only if no other file has the new (base, size) |
| MappingStore.Store.Register | qemu-plugins/introspection/mapping.c:82-87 | a new object is filed in both indexes |
| MappingStore.Store.Extend | qemu-plugins/introspection/mapping.c:67-78 | the object is stolen, widened to the hull in place and filed again; only its own key fields change |
| MappingStore.Store.Widen | qemu-plugins/introspection/mapping.c:68-77 | the in-place change leaves the interval hull in wrapping arithmetic |
| MappingStore.Store.File | qemu-plugins/introspection/mapping.c:78-87 | re-insertion of a widened object restores agreement exactly when its key is unshared |
| MappingStore.AnswerIsOwner | qemu-plugins/introspection/mapping.c:91-95 | on separated intervals the only answer that mapping_find may give is the owner of the address |
| MappingStore.Store.Find | qemu-plugins/introspection/mapping.c:91-95 | the result is a live mapping with base <= addr < base + size; with ascending ends no result means that there is none |
| MappingStore.Store.Delete | qemu-plugins/introspection/mapping.c:97-105 | exactly the file found, whose interval contains the address, is dropped from both indexes, which still agree |
| StoreRuns.PerformMap | qemu-plugins/introspection/mapping.c:61-89 | one create on a disciplined table refines the plain table |
| StoreRuns.PerformUnmap | qemu-plugins/introspection/mapping.c:97-105 | one delete removes exactly the file with base <= addr < base + size |
| StoreRuns.PerformFind | qemu-plugins/introspection/mapping.c:91-95 | find answers the unique file with base <= addr < base + size, and nothing if and only if there is none |
| StoreRuns.CreateThenFind | qemu-plugins/introspection/mapping.c:61-95 | a file that is created at a free, non-empty interval is found at its base |
| StoreRuns.DeleteAtBase | qemu-plugins/introspection/mapping.c:97-105 | a delete at the base of a mapping removes this mapping and no other |
| StoreRuns.Replay | qemu-plugins/introspection/mapping.c:61-105 | over whole disciplined runs the store simulates the plain table and every find answers as a linear scan of it would |
| StoreRuns.Perform | qemu-plugins/introspection/mapping.c:61-105 | in any table, one operation does to the plain table what its answer says, the answer is a possible one, and the indexes agree afterwards if and only if no create collided |
| StoreRuns.ReplayOverlapping | qemu-plugins/introspection/mapping.c:61-105 | over whole runs in which no create collides, intervals disjoint or not, the indexes keep agreeing and every find and delete gets a possible answer of the plain table |
| StoreRuns.DisciplinedIsCollisionFree | qemu-plugins/introspection/mapping.c:61-105 | runs with disjoint intervals are free of collisions |
| StoreRuns.HullFold | qemu-plugins/introspection/mapping.c:65-88 | after any run of creates a file's base is the least base and its end the greatest end given for it |
| StoreRuns.HullIgnoresOrder | qemu-plugins/introspection/mapping.c:65-88 | permuting the creates does not change the table |
| StoreRuns.HullGrows | qemu-plugins/introspection/mapping.c:65-88 | no covered address is given up and other files keep their intervals |
| StoreModules.CreateKeeping | qemu-plugins/introspection/mapping.c:61-89 | a create keeps the module and status of every mapping, and a new mapping has none |
| StoreModules.DeleteKeeping | qemu-plugins/introspection/mapping.c:97-105 | a delete frees the module with its mapping and keeps all others |
| StoreModules.EnsureModule | qemu-plugins/introspection/module.c:37-46 | the module of a mapping is made on first use and is the same ever after |
| ModuleRuns.Replay | qemu-plugins/introspection/module.c:37-59 | over whole runs of creates, deletes, finds and blocks the module objects have the statuses that the operations and their answers lead to |
| ModuleRuns.ParsedExactly | qemu-plugins/introspection/module.c:37-59 | a mapping is marked parsed exactly when a block in it parsed it since it was last deleted |
| ModuleRuns.StartsAgain | qemu-plugins/introspection/mapping.c:82-86 | a mapping that is made again after a delete has no module until a block runs into it |
| GuestMemory.ReadNeedsAllBytes | qemu-plugins/introspection/module-elf.c:33-44 | a scalar load succeeds if and only if all of its bytes are readable |
| GuestMemory.ReadsBack | qemu-plugins/introspection/module-elf.c:33-44 | a scalar whose little-endian bytes are in memory is loaded as itself |
| GuestMemory.ReadIsLittleEndian | qemu-plugins/introspection/module-elf.c:33-44 | loads of 1, 2, 4 and 8 bytes are little-endian, and their addresses wrap around at 2^64 |
| FunctionTable.Functions.Add | qemu-plugins/introspection/function.c:39-47 | the table is the fold of all calls so far, the new one last |
| FunctionTable.RecordTargets | qemu-plugins/introspection/function.c:39-47 | exactly the entries of the calls join the table; all other entries keep their names |
| FunctionTable.RecordLastWins | qemu-plugins/introspection/function.c:39-47 | the last call for an entry names it |
| FunctionTable.PrefixIsAbsorbed | qemu-plugins/introspection/function.c:39-47 | a prefix added by a failed attempt leaves no trace once all calls are made, whatever came between |
| ImageReading.LoadName | qemu-plugins/introspection/module-elf.c:174-184 | the name loop computes ReadName |
| WalkProperties.NameIsExact | qemu-plugins/introspection/module-elf.c:174-184 | a name is read if and only if it is the readable bytes before the first NUL, or the first 127 bytes |
| BytesInImage.LabelIsFullName | qemu-plugins/introspection/module-elf.c:187 | a tracepoint is named by the bytes of the path, 58, and the bytes of the symbol name up to 127; without a path the name is empty |
| WalkProperties.WalkVerdict | qemu-plugins/introspection/module-elf.c:157-191 | the symbol loop ends at the first symbol it does not get past, with failure if that is unreadable and success if the counter, which may wrap, has reached the end; it runs for ever exactly when there is none |
| WalkProperties.NeverEndless | qemu-plugins/introspection/module-elf.c:157-191 | the symbol loop ends when the end of the table plus one step fits in 64 bits |
| WalkProperties.WalkWins | qemu-plugins/introspection/module-elf.c:157-191 | the last visited symbol for an address names it |
| WalkProperties.WalkKeeps | qemu-plugins/introspection/module-elf.c:157-191 | addresses of no visited symbol keep what the table had |
| WalkProperties.WalkComesFrom | qemu-plugins/introspection/module-elf.c:157-191 | every call belongs to a visited, readable symbol, even when the loop fails later |
| ElfReader.AddSymbols | qemu-plugins/introspection/module-elf.c:153-191 | the symbol loop makes exactly the calls of Walk, in order, as it goes |
| ElfReader.ParseHeaderElf | qemu-plugins/introspection/module-elf.c:46-195 | the whole attempt returns the verdict of Parse and adds exactly its calls |
| ElfProperties.ParseExtends | qemu-plugins/introspection/module-elf.c:33-195 | on a more readable memory a failed attempt turns out to have added a prefix, and any other attempt is repeated exactly |
| ElfProperties.RetriesConverge | qemu-plugins/introspection/module.c:45-57 | any number of earlier attempts, with other tracepoints in between, leave the same table as one final attempt alone |
| ElfProperties.FindDynamicExact | qemu-plugins/introspection/module-elf.c:78-106 | the program header loop succeeds if and only if all headers are readable, with what the last PT_DYNAMIC header says, or nothing |
| ElfProperties.ReadTablesExact | qemu-plugins/introspection/module-elf.c:113-147 | the dynamic section loop succeeds if and only if all entries are readable and its counter does not wrap; each table value is the last entry of its tag, made relative to the base |
| ElfProperties.EndlessExactly | qemu-plugins/introspection/module-elf.c:113-147 | the dynamic section loop gets to a wrapped counter exactly when the section reaches the last entry that fits below 2^64 and all its entries are readable |
| ElfProperties.TablesComeBack | qemu-plugins/introspection/module-elf.c:116-117 | from then on it never ends: in every round the counter is inside the section, its entry is readable, and the same entries come back |
| ElfProperties.ParsedTableIsExact | qemu-plugins/introspection/module-elf.c:153-191 | a successful parse changes the table exactly at base + st_value of the entries with info % 16 equal to 2 between symtab and strtab, last entry winning, named file:symbol |
| ElfProperties.SymbolExactly | qemu-plugins/introspection/module-elf.c:157-191 | a symbol gives a call at this entry if and only if its name, value and info are readable, info % 16 is 2 and base + value is the entry |
| ElfRelocation.RelocationIsInvisible | qemu-plugins/introspection/module-elf.c:128-141 | each DT_STRTAB and DT_SYMTAB value may or may not be relocated by the loader: outcome and tracepoints are equal, when the rewritten bytes are none that the attempt reads elsewhere |
| ElfLayout.LaidOutParses | qemu-plugins/introspection/module-elf.c:46-195 | a file whose header, program headers, dynamic section, symbols and names are in memory byte by byte, as ELF32 or ELF64, is parsed successfully into one tracepoint for each function symbol, its name cut at 127 bytes |
| ElfLayout.ClassIsInvisible | qemu-plugins/introspection/module-elf.c:62-191 | ELF32 and ELF64 byte layouts of the same symbols give equal outcomes and tracepoints |
| ElfExample.Parsed64 | qemu-plugins/introspection/module-elf.c:46-195 | an ELF64 file given byte by byte, of the file "a", with a function "f" (info 0x12, value 0x500) and an object "d" (info 0x11), gives the one tracepoint "a:f" at base + 0x500 |
| ElfExample.Parsed32 | qemu-plugins/introspection/module-elf.c:46-195 | the ELF32 file of the same symbols, byte by byte, gives the same |
| ElfVerdicts.HeaderUnreadable | qemu-plugins/introspection/module-elf.c:52-54 | a file whose first 52 bytes are not all readable is tried again later |
| ElfVerdicts.NotElf | qemu-plugins/introspection/module-elf.c:56-59 | one that does not start like a little-endian ELF file is done with |
| ElfVerdicts.SegmentUnreadable | qemu-plugins/introspection/module-elf.c:78-95 | one with an unreadable program header is tried again later |
| ElfVerdicts.NoDynamicSegment | qemu-plugins/introspection/module-elf.c:108-111 | one without a program header of type 2 is done with |
| ElfVerdicts.MissingTable | qemu-plugins/introspection/module-elf.c:148-152 | one whose dynamic section lacks a table value is done with |
| ElfEncoding.EncodingParses | qemu-plugins/introspection/module-elf.c:46-195 | a list of symbols written out as an ELF32 or ELF64 file (header, one PT_DYNAMIC program header, dynamic section, symbols, strings) and loaded at a base not below its size is read back as exactly its function symbols |
| PeReader.SkipDirectories | qemu-plugins/introspection/module-pe.c:171-186 | the directory loop takes the export address from directory 0 and advances 128 bytes, or fails exactly when a directory is unreadable |
| PeReader.SkipSections | qemu-plugins/introspection/module-pe.c:187-242 | the section loop succeeds exactly when every header, 40 bytes apart, is readable |
| PeReader.LoadNewHeader | qemu-plugins/introspection/module-pe.c:88-314 | the running offset reaches data directory 0 at e_lfanew + 24 + 96 or + 112, and every later field, those of the export directory included, where the PE format puts it |
| PeReader.LoadExportDirectory | qemu-plugins/introspection/module-pe.c:244-314 | the running offset reads the export directory by position, with each early return |
| PeReader.AddExports | qemu-plugins/introspection/module-pe.c:316-343 | the export loop makes exactly the calls of Walk, in order, as it goes |
| PeReader.ParseHeaderPe | qemu-plugins/introspection/module-pe.c:72-347 | the whole attempt returns the verdict of ParsePe and adds exactly its calls |
| PeProperties.ParsePeExtends | qemu-plugins/introspection/module-pe.c:72-347 | a failed attempt adds a prefix of a later one on a more readable memory; any other is repeated exactly |
| PeProperties.PeRetriesConverge | qemu-plugins/introspection/module.c:45-57 | failed PE attempts leave no trace after the last one |
| PeProperties.PeTableIsExact | qemu-plugins/introspection/module-pe.c:316-343 | a successful run of the export loop changes the table exactly at image_base + AddressOfFunctions[NameOrdinals[i]] for i below NumberOfNames, the last name for an entry counts |
| PeLayout.LaidOutParses | qemu-plugins/introspection/module-pe.c:72-347 | a PE32 or PE32+ file whose headers, export directory, tables and names are in memory byte by byte is parsed successfully into one tracepoint for each exported name |
| PeVerdicts.NotMz | qemu-plugins/introspection/module-pe.c:77-83 | a file that does not start with MZ is done with |
| PeVerdicts.NotPe | qemu-plugins/introspection/module-pe.c:85-95 | one whose e_lfanew does not lead to PE is done with |
| PeVerdicts.NoFunctions | qemu-plugins/introspection/module-pe.c:282-287 | one that exports no functions is done with |
| PeVerdicts.MissingTable | qemu-plugins/introspection/module-pe.c:311-314 | one whose export directory lacks a table is done with |
| PeEncoding.EncodingParses | qemu-plugins/introspection/module-pe.c:72-347 | a list of exports written out as a PE32 or PE32+ file (DOS and PE headers, 16 data directories, a section header, export directory, three tables, names) is read back as exactly its named exports |
| LinuxHistory.PendingIsLastRecorded | qemu-plugins/introspection/syscalls.c:10-34 | pending at a stack pointer is exactly the last recorded enter there with no exit or recorded enter since |
| LinuxHistory.FileIsLastOpened | qemu-plugins/introspection/syscall-linux64.c:108-132 | a handle is open exactly when the exit of some open, openat or creat returned it, below 2^63 or on 32 bits below 2^31, and no later exit opened it again or closed it with result 0 |
| LinuxHistory.RunMatches | qemu-plugins/introspection/file.c:27-47 | after every run the pending and handle tables are the ones the history describes |
| LinuxCalls.OpenReturns | qemu-plugins/introspection/syscall-linux64.c:108-123 | an open, openat or creat that returns ret makes handle ret its File if and only if ret is below 2^63 on 64 bits, 2^31 on 32 bits; otherwise the handle table is unchanged |
| LinuxCalls.CloseReturns | qemu-plugins/introspection/syscall-linux64.c:124-132 | a close removes its handle exactly when it returns 0, and nothing else |
| LinuxCalls.HandlesChangeOnlySo | qemu-plugins/introspection/syscall-linux64.c:99-150 | no other event changes the handle table |
| LinuxCalls.MappedAsReturned | qemu-plugins/introspection/syscall-linux64.c:133-146 | an open and an mmap of its handle map the path at the address returned and of the size asked for; the result -1 maps nothing on 64 bits, and maps on 32 bits |
| LinuxCalls.Mmap2Returns | qemu-plugins/introspection/syscall-linux32.c:116-134 | an mmap2 is recorded on 32 bits, and its return only drops the record |
| LinuxCalls.NotFollowed | qemu-plugins/introspection/syscall-linux64.c:63-97 | a call that is not followed, an mmap2 on 64 bits, and an mmap of an unknown handle change nothing |
| LinuxPairing.OwnEnterExactly | qemu-plugins/introspection/syscalls.c:10-34 | an exit processes what its own enter recorded if and only if that enter recorded something or nothing older was pending |
| LinuxPairing.StaleRecordExample | qemu-plugins/introspection/syscall-x86_64.c:123-155 | an untracked enter at a stack pointer in use lets its exit process the older record |
| LinuxPairing.ExitProcessesOwnEnter | qemu-plugins/introspection/syscall-x86_64.c:123-155 | with one outstanding call per stack pointer every exit finds exactly the number and parameters of its own enter, and an exit without a record changes no table |
| LinuxPairing.ProcessedByNext | qemu-plugins/introspection/syscalls.c:10-34 | with one outstanding call per stack pointer every recorded enter is processed by exactly one exit, the next system call event at its stack pointer |
| LinuxPairing.ProcessedOnce | qemu-plugins/introspection/syscalls.c:16-20 | no enter is processed by two exits, in any interleaving |
| LinuxPairing.RecordFate | qemu-plugins/introspection/syscall-linux64.c:148-149 | in any interleaving each record that an enter allocates is still pending, or was freed by one exit, or lost to one later enter that took its entry, and never two of these |
| LinuxPairing.NoRecordLost | qemu-plugins/introspection/syscalls.c:22-34 | with one outstanding call per stack pointer no record is lost |
| LinuxPairing.LostRecordExample | qemu-plugins/introspection/syscalls.c:22-34 | two enters at one stack pointer lose the first record, and the exit frees the second |
| LinuxOwnership.StepSound | qemu-plugins/introspection/syscall-linux64.c:40-149 | every step keeps each string with at most one owner and freed at most once, and only overwriting a pending path loses a string |
| LinuxOwnership.CloseSound | qemu-plugins/introspection/file.c:6-11 | closing a file frees its name exactly once and loses nothing |
| LinuxOwnership.RunSound | qemu-plugins/introspection/syscall-linux32.c:154-204 | single ownership and single release hold after every run |
| LinuxOwnership.LostExactly | qemu-plugins/introspection/syscalls.c:22-34 | a path string is neither owned nor freed exactly when an enter overwrote the pending record that held it |
| LinuxOwnership.LostExample | qemu-plugins/introspection/syscalls.c:22-34 | two enters at one stack pointer lose the first path |
| LinuxOwnership.NoneLost | qemu-plugins/introspection/syscall-linux64.c:40-149 | with one outstanding call per stack pointer every allocated string is pending, owned by a live File, or freed |
| LinuxOwnership.StringsConserved | qemu-plugins/introspection/syscall-linux64.c:40-86 | every string allocated so far is still allocated with its text, or has been freed, and no other string is |
| LinuxProvenance.LiveExactly | qemu-plugins/introspection/file.c:27-47 | a File object is alive exactly while its handle still means it |
| LinuxProvenance.OpenFilePath | qemu-plugins/introspection/syscall-linux64.c:108-132 | the name of an open handle is the path read at the enter of the call that opened it |
| LinuxProvenance.DanglingExactly | qemu-plugins/introspection/syscall-linux64.c:63-146 | a File is used after it was destroyed exactly by an mmap whose handle was closed or replaced between its enter and exit |
| LinuxProvenance.DanglingExample | qemu-plugins/introspection/syscall-linux64.c:63-146 | a run in which a handle is closed while an mmap of it is pending |
| LinuxProvenance.ClashExactly | qemu-plugins/introspection/mapping.c:78-86 | a mapping is destroyed by g_tree_insert exactly when some mmap of the history gave its file the interval of another file |
| LinuxProvenance.ClashExample | qemu-plugins/introspection/mapping.c:78-86 | two opens and two mmaps at one address destroy the first mapping |
| LinuxProvenance.MappingsFromHistory | qemu-plugins/introspection/syscall-linux64.c:133-146 | without a clash the mappings after a run are the hull fold of its successful mmaps |
| LinuxProvenance.MappingProvenance | qemu-plugins/introspection/syscall-linux64.c:63-146 | every mapped file name is the path of an earlier successful open whose file an earlier successful mmap mapped |
| LinuxProvenance.FoundIsOwner | qemu-plugins/introspection/module.c:37-46 | on separated intervals a block parses exactly the file that the history says is mapped at its address |
| LinuxProvenance.FunctionProvenance | qemu-plugins/introspection/module-elf.c:170-190 | every tracepoint comes from a function symbol read by an earlier block in a file that was opened, mapped, and covers the block's address; its name is the path, a colon and the symbol's name |
| LinuxModules.ExitKeepsParsed | qemu-plugins/introspection/mapping.c:65-88 | without a clash extending a mapping keeps its parse status |
| LinuxModules.ParsedExactly | qemu-plugins/introspection/module.c:37-59 | without a clash a mapping is marked parsed exactly when an earlier block parsed it |
| LinuxModules.ParsedOnce | qemu-plugins/introspection/module.c:37-59 | at most one block parses a mapping successfully, and later blocks on it change nothing |
| LinuxRetries.RetriesLeaveNoTrace | qemu-plugins/introspection/module.c:45-57 | once a block parses a file at a fixed base, having read all that the earlier attempts could, the whole process is from then on as if these attempts had not happened |
| Plugin.Projection | qemu-plugins/introspection/process.c:41-48 | after any interleaving each process is what its own events alone make it |
| LinuxObjects.Process.OnCall | qemu-plugins/introspection/syscall-linux64.c:24-97 | a system call leaves valid objects whose state is the run of the history with the call added; nothing but this process changes |
| LinuxObjects.Process.OnReturn | qemu-plugins/introspection/syscall-linux64.c:99-150 | the same for a return, which moves the path into a File, closes one, or maps the borrowed File's name in the store; the objects stay valid unless intervals clash |
| LinuxObjects.Process.OnBlock | qemu-plugins/introspection/module.c:37-59 | the same for a block: the store is searched for its address, the module made on first use and parsed unless it has been |
| LinuxObjects.Process.ExitMmap | qemu-plugins/introspection/syscall-linux64.c:133-149 | mapping_create is called with the text of the borrowed File's name, and all modules of the store survive |
| LinuxObjects.Process.ParseModule | qemu-plugins/introspection/module.c:42-57 | only this mapping's module and the functions change, by one attempt, or not at all when it was parsed |
| LinuxTracer.Tracer.ProcessGet | qemu-plugins/introspection/process.c:41-48 | an unknown context gets a new process with objects of its own |
| LinuxTracer.Tracer.BeforeInsn | qemu-plugins/introspection/introspection.c:39-47 | an instruction is added to the history of its process, whose objects change, and of no other |
| LinuxTracer.Tracer.BeforeTb | qemu-plugins/introspection/introspection.c:54-59 | the same for a block, with an answer that mapping_find may give for its address |
| LinuxTracer.AsAlone | qemu-plugins/introspection/process.c:41-48 | each process object is in the state to which its own events alone lead |
| WindowsSections.OutParameter | qemu-plugins/introspection/syscall-win64.c:225-229 | an out-parameter is the 8-byte word in guest memory on Windows 10, the 4-byte word on XP, and 0 where a byte of it is not readable |
| WindowsSections.UnmapDeletesExactly | qemu-plugins/introspection/syscall-win64.c:233-240 | a successful unmap leaves the mappings alone exactly when none has base <= addr < base + size; otherwise one that has is gone, and only that |
| WindowsSections.UnmapAtBase | qemu-plugins/introspection/syscall-win64.c:233-240 | an unmap at the base of a view removes that view and no other |
| WindowsSections.QueryKeepsMappingsExactly | qemu-plugins/introspection/syscall-win32.c:346-363 | a successful process query leaves the mappings alone exactly when it is not the XP handler or no mapping covers its buffer; otherwise one that does is deleted |
| WindowsSections.QueryExample | qemu-plugins/introspection/syscall-win32.c:346-363 | a run on XP in which a process query deletes the view that its buffer lies in |
| WindowsSections.UndefinedStays | qemu-plugins/introspection/section.c:10-16 | once a process has used something freed, or lost a mapping to a collision, it stays undefined |
| WindowsHistory.FileIsLastOpened | qemu-plugins/introspection/file.c:27-47 | a file handle is open exactly when a successful open, or duplication of a File still open, wrote this value for its process and no later event wrote or closed it |
| WindowsHistory.SectionIsLastBound | qemu-plugins/introspection/section.c:38-79 | a section handle means the section that the last creation or open by name bound it to, unless it was closed since |
| WindowsHistory.FinishFiles | qemu-plugins/introspection/syscall-win64.c:177-282 | only successful NtOpenFile or NtCreateFile, NtDuplicateObject and NtClose touch handles and Files: the first two make the handle a new File with the path, or with the name of the duplicated File, in place of an old one; the last destroys the File |
| WindowsHistory.RunMatches | qemu-plugins/introspection/file.c:27-47 | after every run the records, file handles, live Files and their names, section handles, named sections and freed names of all processes are the ones that the history of their requests describes |
| WindowsViews.MappingsFromHistory | qemu-plugins/introspection/syscall-win64.c:220-240 | without a clash the mappings of a process are the fold of its views: each at the base and size in guest memory, with the file of the section, less those unmapped or hit by the XP query |
| WindowsViews.ClashExactly | qemu-plugins/introspection/mapping.c:78-86 | a mapping is destroyed by another one exactly when some view gave its file the interval of another file |
| WindowsViews.ClashDestroys | qemu-plugins/introspection/mapping.c:78-86 | then the files with that interval are gone, and only they |
| WindowsViews.PidFromHistory | qemu-plugins/introspection/syscall-win64.c:268-281 | the number of a process is the word at byte 32, on XP at byte 16, of the buffer of its last successful query |
| WindowsViews.CrossProcessView | qemu-plugins/introspection/syscall-win64.c:190-232 | a view that process B maps through a section opened by name has the file that process A named at creation, at the base and of the size that lie in guest memory, whatever A closed meanwhile |
| WindowsSharing.SectionsAfter | qemu-plugins/introspection/section.c:38-79 | a registered section keeps its identity and file name over every event that does not create its name again |
| WindowsSharing.HandlesAfter | qemu-plugins/introspection/section.c:69-79 | a section handle keeps its meaning over every event that does not close or rebind it in its own process |
| WindowsSharing.NamesFromHistory | qemu-plugins/introspection/section.c:38-50 | a name is registered exactly when a section of it was created, and the key of its entry is freed exactly when two were |
| WindowsSharing.DanglingExactly | qemu-plugins/introspection/section.c:38-67 | a process uses freed memory exactly when it completes a request with a destroyed File or Section, or creates or opens a section of a name that was created twice before, by whichever processes |
| WindowsSharing.FreedKeyExample | qemu-plugins/introspection/section.c:47-57 | a name is created twice and then opened |
| WindowsInterleaving.EventsCommuteExactly | qemu-plugins/introspection/section.c:38-67 | adjacent events of different processes, each of them defined, commute if and only if they do not touch the registration of one section name, or its old section, with one of them creating it |
| WindowsInterleaving.CommutingStaysDefined | qemu-plugins/introspection/section.c:38-67 | where they commute, one after the other they are defined too |
| WindowsInterleaving.RaceExample | qemu-plugins/introspection/section.c:38-67 | a create and an open of one name by two processes do not commute |
| WindowsInterleaving.Projection | qemu-plugins/introspection/process.c:41-48 | in a run that uses nothing freed, a process whose section names no other process creates is, after any interleaving, what its own events alone make it, and these alone use nothing freed either |
| WideString.Utf8Table | qemu-plugins/introspection/helper.c:72-79 | a unit is written in one, two or three bytes with its bits in groups of six after the marks 110, 1110 and 10 |
| WideString.DecodeInvertsEncode | qemu-plugins/introspection/helper.c:72-79 | bytes decode to a list of code units if and only if they are its encoding |
| WideString.EncodeBound | qemu-plugins/introspection/helper.c:72-79 | one to three bytes per unit |
| WideString.CountPass | qemu-plugins/introspection/helper.c:69-73 | pass one counts exactly the bytes of the encoding of the units scanned |
| WideString.WritePass | qemu-plugins/introspection/helper.c:77-81 | started with what pass one left, and where that does no harm, pass two stays inside the buffer that pass one measured and writes exactly the encoding of the units it scans |
| WideString.SecondScan | qemu-plugins/introspection/helper.c:74-81 | pass two ends after as many units as pass one, or after one unit where it starts with 0 and cannot read the first, and nowhere else |
| WideString.SecondPassFitsExactly | qemu-plugins/introspection/helper.c:69-81 | pass two stays inside the buffer if and only if the first unit is readable, or none is, or the loop variable was left 0, or its form is not longer than that of its first value |
| WideString.SecondPassTooLongExample | qemu-plugins/introspection/helper.c:69-81 | a two-unit string for which four bytes are counted and six would be written |
| WideString.Strdupw | qemu-plugins/introspection/helper.c:60-84 | for every scan under that condition the copy is the encoding of the units that pass two sees, and a terminator; when the passes agree it fills the buffer |
| WideString.PassesAgreeExactly | qemu-plugins/introspection/helper.c:69-81 | the passes agree for every first value of the loop variable exactly when the first unit is readable or no unit is |
| WideString.StringCopied | qemu-plugins/introspection/helper.c:60-84 | a string in guest memory with its terminator, two bytes a unit, is scanned whole or cut after maxlen units, whatever the loop variable starts with, and copied as its encoding |

## Left out

- GLib itself: hash tables and the tree by file name, whose keys never change, are maps; balancing is the arbitrary rotation plan above; allocation never fails.
- MappingStore.Store.Delete: takes the object out of the address tree before it removes the name, the other way round than the code; no one can look in between.
- Event inputs: register values, the path `vmi_strdup` reads, and handles after masking are parts of an event. What `mapping_find` answers is an input of the Linux and Windows machines, constrained by `Answer` where a result needs it; `LinuxObjects.Process.OnBlock` computes it.
- In the machines a string, File or Section is named by the event that allocated it. Reuse of an address by the allocator is not modelled; once `dangling` or `clashed` holds, the C program's behaviour is not defined and the run says nothing about it. `LinuxObjects.Process.OnReturn` therefore asks that a File it uses has not been destroyed, and promises valid objects only without a clash.
- A parse attempt that never ends, because its 64-bit counter goes round for ever, has the verdict Endless; the process machine goes on as if it had failed, where the plugin would hang.
- PeReader.ParseHeaderPe: its signed loop index, multiplied by 4, is not defined from 2^29 names on; the model continues in unbounded arithmetic, reduced to 32 bits.
- Big-endian guests: the code marks byte swapping as still to do. `qemu/include/elf.h` is not part of this model; the ELF constants are those of the ELF gABI.
- 32-bit Linux on an x86_64 guest, where the exit handler reads the result register of ARM: the result is an event input, so the model describes i386 and ARM.
- SYS_mmap2: recorded at its enter and ignored at its exit, as in the code.
- WideString.Strdupw: asks that the scan ends and for the exact condition of `SecondPassFitsExactly`, since the C code is not defined otherwise. `vmi_strdup` is not modelled.
- What `qemulib_read_memory` leaves in its buffer when only a part of the bytes is readable is not part of this model: a failed load leaves the variable as it was.
- WindowsViews.CrossProcessView: asks for a section name that is new, and not created again until the view is mapped; a second section of the name destroys the first, and later lookups use a freed key.
- WindowsSharing.DanglingExactly: GLib compares keys of equal hash only, but two different names may have one; a lookup of a name that merely shares the hash of a freed key is not counted as a use of it.
- Windows tables are modelled on values: `section.c`, `syscall-win64.c` and `syscall-win32.c` update objects in place, and the model does not show their aliasing other than by the names of objects.
- Windows: the argument blocks in guest memory, the upper-casing of section names by `g_utf8_strup`, the assertion on an empty name in `section_open`, string ownership, and the parsing of PE modules at translation blocks (`PeProperties` is about the parser alone).
- Opcode decoding, the choice of the pending key for each architecture, and the system call number tables: they only classify events.
- `socketcall` and the effects of `execve`, logging, and process destruction, which nothing triggers.
