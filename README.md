# Page mapping and kernel monitor of a small x86 teaching kernel

This project models two parts of the kernel in Dafny and proves what they promise.

**The page-table mapping layer** (`kern/pmap.c`) manages the two-level x86 page tables of a process:

- `pmap_walk` finds, and on demand creates, the page table entry for a user virtual address.
- `pmap_insert` maps a physical page at an address, replacing any earlier mapping there.
- `pmap_lookup` returns the page mapped at an address.
- `pmap_remove` unmaps it.
- `pmap_invl` invalidates the TLB entry when the edited directory is the one in use.
- `pmap_init` fills the bootstrap page directory with an identity map of 4 MB global pages outside the user window.

User virtual address 0 is linear address `PMAP_LINUSER`. The addition wraps modulo 2^32.

**The kernel monitor's command interpreter** (`kern/monitor.c`) works on one NUL-terminated line at a time:

- `runcmd` splits the line into arguments in place, writing NULs over the separators it passes.
- It refuses a line with more than `MAXARGS - 1` = 15 arguments.
- It runs the first command of its table named by the first argument.
- The `exit` command returns -1, and the monitor loop stops exactly on a negative result.

The files:

- `mmu.dfy`: the paging layout. It covers entry flags, directory and table indices, the user window and the entry encodings. Words are integers in [0, 2^32), and bit operations are written as division, remainder and addition.
- `pmap.dfy`: physical memory as a class.
  - Memory is a 2-D array with one row of 1024 words per page frame, plus a reference count per frame.
  - The allocator is an interface over a free list.
  - The TLB is a ghost log of invalidated linear addresses.
  - Page directories and page tables are frames, and a pointer to an entry is a `Slot`.
  - Each C function is a method. Its contract is stated against the ghost functions `SlotOf` (the slot a walk reaches) and `Mapping` (the page an address maps to).
- `monitor.dfy`: the arguments of a line are the specification function `Words`, which gives its maximal runs of non-separators, left to right.
  - The in-place parse of runcmd is a method over a `char` array, proved against `Words`.
  - Command dispatch is proved against `FirstCommand` and `CmdResult`.
  - The monitor loop is proved to stop exactly at the first line whose command is `exit` with at most 15 arguments.
- `refs.dfy`: the references a page directory holds, counted over a snapshot of memory (`Refs`), and the invariant `CountedIn`: every frame's reference count covers the references the directory holds to it. The mapping operations keep this invariant, so any number of them can follow one another.
- `wrappers.dfy`: `Option`, for NULL pointers and failed lookups.

## Model

| member | source | states |
|---|---|---|
| Mmu.PDX | kern/pmap.c:111-112 | the directory index of a 32-bit linear address is one of the 1024 directory slots |
| Mmu.PTX | kern/pmap.c:132 | the table index of a linear address is one of the 1024 entries of a page table |
| Mmu.EntryRoundTrip | kern/pmap.c:139-142 | the entry made by or-ing phys(pi), perm and PTE_P is present, refers to page pi and carries exactly perm with PTE_P set as its low 12 bits, so PTE_U and PTE_W are perm's own |
| Mmu.TablePdeRoundTrip | kern/pmap.c:126-129 | the directory entry made for a new page table is present, writable and user-accessible, and refers to that table |
| Mmu.UserWindow | kern/pmap.c:111 | after the wrapping addition of PMAP_LINUSER, a user address lands in the user window exactly when it is below PMAP_LINHIGH - PMAP_LINUSER |
| Mmu.AddressSplit | kern/pmap.c:111-132 | directory index, table index and page offset together rebuild the linear address |
| Mmu.SlotIsPage | kern/pmap.c:111-132 | two linear addresses reach the same directory slot and table slot exactly when they lie in the same 4 KB page |
| Mmu.BootIdentity | kern/pmap.c:42-56 | a bootstrap directory entry is a present, writable, global, supervisor-only 4 MB page that translates every address it covers to itself |
| Pmap.PhysMem.Alloc | kern/pmap.c:118 | mem_alloc fails exactly when no frame is free; otherwise it hands out the first free frame and removes it from the free list |
| Pmap.PhysMem.Incref | kern/pmap.c:120 | mem_incref adds one to the frame's count and changes no other count |
| Pmap.PhysMem.Decref | kern/pmap.c:243 | mem_decref subtracts one from the frame's count, and frees the frame exactly when the count reaches zero |
| Pmap.PhysMem.ClearFrame | kern/pmap.c:123-124 | the memset loop zeroes every word of the new table and no other frame changes |
| Pmap.PhysMem.WriteWord | kern/pmap.c:240 | a store into one word of memory changes that word and no other |
| Pmap.PhysMem.Held | kern/pmap.c:243 | under the reference invariant, the page mapped at an address has a positive count, so the mem_decref of pmap_remove never underflows |
| Pmap.PhysMem.Unfree | kern/pmap.c:116-120 | under the reference invariant neither the directory nor any of its page tables is on the free list, so a directory whose tables are its own is in use (DirOk) |
| Pmap.PhysMem.Find | kern/pmap.c:111-115 | the walk through a present directory entry yields the slot at index PTX(la) of the table it names; with no present entry it yields nothing |
| Pmap.PhysMem.Walk | kern/pmap.c:88-137 | covers the no-create, the existing-table and the out-of-memory paths, which change nothing. It fails exactly when the table is absent and it may not or cannot allocate. A creating walk takes the first free frame and raises its count by one, leaving every other count alone. It zeroes the frame and installs phys(t) with PTE_P, PTE_W and PTE_U set, leaving every other word alone. No address changes the page it maps. The directory stays in use (DirOk) and the counts keep covering its references |
| Pmap.PhysMem.AddTable | kern/pmap.c:116-129 | the creating half of the walk: the fresh frame's count goes up by one, the frame is zero, the directory entry names it, and no other word changes; the new table maps nothing, so every address keeps its page |
| Pmap.PhysMem.Lookup | kern/pmap.c:184-215 | returns exactly the page mapped at uva. It stores the slot for every nonzero entry, bogus ones included, and returns nothing for a missing table, a zero entry, a non-present entry or a frame beyond physical memory |
| Pmap.PhysMem.Invl | kern/pmap.c:249-260 | the linear address PMAP_LINUSER + uva is invalidated exactly when no process runs or the running process's directory is the one edited |
| Pmap.PhysMem.SetSlot | kern/pmap.c:240 | a store through a page table entry pointer changes that word only; the directory's entries, and the page of every address using another slot, stay as they were |
| Pmap.PhysMem.Remove | kern/pmap.c:217-247 | with nothing mapped it changes nothing. Otherwise it zeroes the entry and no other word, invalidates as pmap_invl does, takes one reference from the unmapped page and none from any other frame, and frees the page at zero. Afterwards nothing is mapped at uva, and every address using another slot keeps its page. The directory stays in use and the counts keep covering its references |
| Pmap.PhysMem.Unmap | kern/pmap.c:240-243 | once the entry is found: the entry becomes zero and no other word changes, the address is invalidated, the page's count drops by one and it is freed at zero |
| Pmap.PhysMem.RemoveCounted | kern/pmap.c:240-243 | zeroing the entry and dropping its page's reference keeps the counts covering the directory's references, and the directory stays in use |
| Pmap.PhysMem.Insert | kern/pmap.c:139-182 | covers the walk's failure (no table and no memory: nothing changes) and, on success, the entry phys(pi) with perm and PTE_P set, after which uva maps pi; an existing slot is the one returned. Every frame's count changes by exactly: one more for pi, one more for a new table, one less for the page mapped before, so re-inserting the page already there keeps its count. The page replaced is freed at zero, and a new table is the first free frame, taken off the free list. The TLB is flushed exactly when a page was mapped and d is in use. Over an existing table only the entry's word changes; with a new table only that table and the directory entry naming it change. Other slots keep their pages. The directory stays in use and the counts keep covering its references |
| Pmap.PhysMem.Install | kern/pmap.c:167-176 | the part of insert after the walk: incref before remove, so that re-inserting the same page cannot free it, then the store of the new entry. The same count, free-list and TLB cases; only the entry's word changes; the directory stays in use and counted |
| Pmap.PhysMem.Displace | kern/pmap.c:167-174 | pi's count goes up before the old page is removed, which costs that page one reference and frees it only when it is not pi and loses its last reference; afterwards uva maps nothing and only the entry's word changed |
| Pmap.PhysMem.InstallCounted | kern/pmap.c:170-176 | storing pi's entry over the old one, with pi's reference taken and the old page's dropped, keeps the counts covering the directory's references, and the directory stays in use |
| Pmap.InsertWithTable | kern/pmap.c:293-302 | an insert at an address without a page table fails exactly when no frame is free; otherwise the first free frame becomes the table, the address maps the page, and the page and the table each have one reference |
| Pmap.ShareAndRelease | kern/pmap.c:339-365 | one page inserted at two addresses and removed from both: its count goes 1, 2, 1, 0, the first address maps nothing and the second keeps the page after the first remove, and at zero the page heads the free list, so the next allocation returns it |
| Pmap.Share | kern/pmap.c:339-343 | two inserts of one fresh page at two addresses with tables: both map it and its count is 2 |
| Pmap.Release | kern/pmap.c:349-364 | removing a page mapped at two addresses: after the first remove the count is 1, the first address maps nothing and the other still maps the page; after the second the count is 0, nothing is mapped and the page heads the free list |
| PageRefs.Store | kern/pmap.c:240 | storing one word of a memory snapshot changes that word and no other |
| PageRefs.CountRowUpdate | kern/pmap.c:176 | storing an entry in a row trades the old entry's reference for the new one's |
| PageRefs.CountRowBlank | kern/pmap.c:123-124 | a zeroed page table refers to nothing |
| PageRefs.RefsCover | kern/pmap.c:111-115 | each present user entry and the page table it names contribute their references to the directory's |
| PageRefs.CountedMore | kern/pmap.c:170 | raising counts, as mem_incref does, keeps the invariant |
| PageRefs.CountedHits | kern/pmap.c:167-174 | under the invariant the directory, each of its page tables and each page they map have a positive count |
| PageRefs.CountedUnnamed | kern/pmap.c:117-120 | under the invariant a frame with count zero, such as a fresh one from mem_alloc, is none of the directory's page tables |
| PageRefs.DirEntryAdded | kern/pmap.c:129 | filling an absent directory entry adds the entry's reference and those of the table it names |
| PageRefs.SlotStoreCounted | kern/pmap.c:170-176 | a store into a page table entry keeps the invariant when the counts make up for the reference added and the one dropped |
| PageRefs.NewTableCounted | kern/pmap.c:116-129 | installing a zeroed fresh table, with its count raised by one, keeps the invariant |
| Pmap.InitBootDir | kern/pmap.c:38-57 | on the boot CPU every directory slot outside [PDX(PMAP_LINUSER), PDX(PMAP_LINHIGH)) holds its identity 4 MB entry and the user slots are untouched; off the boot CPU nothing changes |
| Monitor.LineShape | kern/monitor.c:136-139 | the C string of a buffer is a NUL-free prefix followed by a NUL whenever the buffer holds one |
| Monitor.LineOf | kern/monitor.c:136-139 | a NUL-free prefix followed by a NUL is the buffer's C string |
| Monitor.RunEndShape | kern/monitor.c:147-148 | the scan past an argument stops at the first separator or the end of the line, over non-separators only |
| Monitor.RunEndIs | kern/monitor.c:147-148 | a run of non-separators ended by a separator or the line's end is exactly where the scan stops |
| Monitor.SkipRun | kern/monitor.c:135-137 | gobbling separators adds no argument |
| Monitor.TakeWord | kern/monitor.c:141-148 | a maximal run of non-separators is the next argument, and the rest of the line holds the others |
| Monitor.WordsAreRuns | kern/monitor.c:131-149 | every argument is nonempty and free of separators |
| Monitor.WordsShift | kern/monitor.c:131-149 | the arguments after a prefix are the arguments of what follows it |
| Monitor.WordsUnwords | kern/monitor.c:131-149 | splitting nonempty, separator-free words joined by blanks gives the words back (the partner of Words) |
| Monitor.BlankLine | kern/monitor.c:138-139 | a line of separators only has no arguments |
| Monitor.Invoke | kern/monitor.c:48-116 | a command's result is negative exactly for mon_exit (-1); mon_help, mon_kerninfo and mon_backtrace return 0 |
| Monitor.FirstCommand | kern/monitor.c:155-158 | the index found names the command and no earlier command has that name; no index means no command has it |
| Monitor.ExitStops | kern/monitor.c:110-160 | runcmd's result is negative exactly for a line with 1 to 15 arguments whose first is "exit" |
| Monitor.Terminated | kern/monitor.c:137-150 | once every separator of the line is a NUL, each argument pointer points at a NUL-terminated copy of its argument |
| Monitor.SkipSeparators | kern/monitor.c:135-137 | the gobble loop writes NUL over exactly the separators from p to the next non-separator or the end of the line, and changes nothing else |
| Monitor.ScanArgument | kern/monitor.c:146-148 | the scan loop moves past a nonempty run of non-separators to a separator or the end of the line, changing nothing |
| Monitor.ProgressDone | kern/monitor.c:150 | when the scan reaches the end of the line it has found all the arguments, each a C string of the buffer |
| Monitor.ProgressFull | kern/monitor.c:142-145 | meeting an argument with 15 already saved means the line has more than 15, and those from there on are the excess |
| Monitor.Parse | kern/monitor.c:131-150 | with at most 15 arguments: argv[0..argc) point at NUL-terminated copies of the line's arguments, in order; argv[argc] is NULL; every separator of the line has become a NUL. With more: it reports too many exactly then, with 15 saved and the rest unread from the stop point on |
| Monitor.FindCommand | kern/monitor.c:155-158 | the strcmp loop finds the first command of the table named by the first argument, or none |
| Monitor.RunCmd | kern/monitor.c:124-161 | returns 0 for an empty line, for too many arguments and for an unknown command, and otherwise the first matching command's result. Each buffer character is either kept or is a separator turned into NUL |
| Monitor.LineTerminated | kern/monitor.c:177-179 | a NUL-free line handed over with its terminator reads back as itself |
| Monitor.StopsOnExit | kern/monitor.c:176-181 | the loop stops on a line exactly when it has 1 to 15 arguments and the first is "exit" |
| Monitor.RunLine | kern/monitor.c:177-179 | running a line read from the console gives runcmd's result for it |
| Monitor.RunMonitor | kern/monitor.c:163-182 | the loop stops at the first non-NULL line whose command returns a negative value, and at no earlier one; if no line stops it, it consumes all of its input |

## Left out

- Pmap.PhysMem.Walk: requires a user address, one whose linear address falls in [PMAP_LINUSER, PMAP_LINHIGH). For such an address every present directory entry names a page table. For a kernel address the C code would read a 4 MB page entry as if it named a table, and that case is not modelled.
- Pmap.PhysMem.Lookup, Pmap.PhysMem.Remove, Pmap.PhysMem.Insert and Pmap.PhysMem.Install: like Walk, these require a user address.
- Pmap.PhysMem.Walk, Pmap.PhysMem.Insert and Pmap.PhysMem.Remove: these require, and re-establish, that the directory is in use (`DirOk`: its entries name distinct frames of physical memory, and neither it nor its tables is free) and that the counts cover its references (`Counted`).
- Counted: the invariant is that a frame's count is at least the number of references the directory holds to it, not equal to it. References held from other directories or by the kernel are not tracked, so one directory is modelled at a time.
- Pmap.PhysMem.Insert: requires 0 <= perm < 4096, that is, perm is confined to the low 12 bits, as the comment at kern/pmap.c:141-142 says. It also requires that pi is allocated (not on the free list).
- The model follows the build with SOL >= 3. In other builds the bodies of pmap_walk, pmap_insert and pmap_lookup return NULL, pmap_remove does nothing and pmap_init panics. The monitor's command table lacks `backtrace` when SOL < 1 (kern/monitor.c:35-37) and `exit` when SOL < 3 (kern/monitor.c:38-40).
- The frame allocator (`mem_alloc`, `mem_incref`, `mem_decref`; kern/mem.c is not part of this model) is modelled by its interface:
  - allocation pops the head of a free list;
  - a frame whose count drops to zero is pushed onto the head.
- `mem_phys2pi` and `mem_pi2phys` are identities on page numbers, and a `pageinfo` pointer is its page number.
- `PMAP_LINUSER` and `PMAP_LINHIGH` come from kern/pmap.h, which is not part of this model. They are taken as 0x40000000 and 0xF0000000, both 4 MB aligned.
- `proc_cur()` becomes the parameter `cur`: the running process's directory, or nothing. The `invlpg` instruction becomes an entry in the ghost log `flushed`.
- The control-register writes of pmap_init (CR4 page-size and global enables, loading CR3, the CR0 paging bits) are not modelled, and neither is `cpu_onboot`, which is the parameter `onboot`.
- `pmap_check` (test code compiled only for LAB >= 99) is not modelled as such. Pmap.InsertWithTable restates its first insert, which creates a page table (kern/pmap.c:293-302). Pmap.ShareAndRelease restates its insert and remove count sequence at kern/pmap.c:339-365, with both addresses already having page tables. Its other steps (remapping with other permissions, the allocator checks) are not restated.
- The warning printed for a bogus entry in pmap_lookup, and the messages runcmd and monitor print, are not modelled.
- mon_help, mon_kerninfo and mon_backtrace print and walk the stack. Only their return values are modelled. The argc, argv and trapframe arguments passed to a command are not modelled.
- `readline` and the console: the input is a finite sequence of lines, each possibly NULL. The source loops for ever, so the model reports that it consumed the whole input without stopping. The readline buffer size (CMDBUF_SIZE) is not modelled.
- Monitor.RunCmd: with more than 15 arguments, its contract states only the per-character relation on the buffer; Parse states the exact blanking up to the stop point.
- dev/e100.c and user/testpipe.c are not part of this model.
