# OS/161 memory, process and file bookkeeping in Dafny

This project models the sequential bookkeeping at the heart of an OS/161
teaching kernel (MIPS r3000, 4 KiB pages, 32-bit words) and proves what it
does, defects included:

- **Frame allocator** (`Coremap`, from kern/arch/mips/vm/vm.c): the coremap
  array, `coremap_init`, `vm_bootstrap`, first-fit `getppages`,
  `alloc_kpages` and `free_kpages`.
- **TLB fault handler** (`TlbFault`, from vm.c): fault-type validation, the
  region lookup with base-plus-offset arithmetic in 32 bits, and the write of
  the mapping into the first TLB slot without VALID. The dumbvm-style region
  fields that `vm_fault` reads are abstract parameters (`Regions`).
- **Address space** (`AddrSpaces`, from kern/vm/addrspace.c): the page-table
  list (a sequence of entries in list order), `as_create`,
  `as_define_region`, `as_define_stack`, `as_copy` (with physical memory as
  a map from frame to bytes), `as_destroy`, `as_activate`, `sys_sbrk` with
  its rollback, and the `free_vpages` scan.
- **PID allocator** (`Pids`, one model for kern/process/process.c and its
  word-for-word copy kern/process/pid.c): the bitmap, the recursive
  lowest-zero search `get_pid_index`, `get_pid`, `set_pid`, `clear_pid`.
- **Process record** (`Processes`): the process and open-file-handle
  structures and `create_process_table`.
- **Descriptor-table system calls** (`FileSyscalls`, from
  kern/syscall/file.c and kern/syscall/file_io.c): `sys_lseek`, `sys_dup2`,
  `sys_open`, `sys_write`, `sys_close`.
- **Wait and exit** (`WaitExit`, from kern/process/wait_exit.c):
  `sys_waitpid`, `destroy_process_table`, `adopt_grand_children`,
  `sys__exit`.
- **Dispatcher** (`Syscall`, from kern/arch/mips/syscall/syscall.c): how the
  result of a system call is encoded into the trapframe.

A kernel death (a panic, a failed KASSERT on the modelled path, a NULL
dereference, an array index outside its table) is the outcome `Crash`. A
KASSERT that states what a caller must guarantee is a `requires` instead.
Memory that `kmalloc` returns uncleared is an arbitrary value. Everything
the kernel asks of code outside the model arrives as a parameter: the VFS
and VOP results, `copyin`/`copyout`, `kmalloc` success, `ram_getsize` and
`ram_stealmem`.

The defects are modelled as written, and lemmas show their effect:

- `set_pid` does `&=` and never sets its bit, so the same PID is handed out
  again (`PidAllocRepeatsOnEmptyMap`).
- The descriptor bound test `fd > MAX_FILES_PER_PROCESS` lets descriptor 32
  through, past the end of the table, so the call ends in `Crash`.
- The access test in `sys_open` uses `flags & O_RDONLY` with `O_RDONLY == 0`,
  so read-only opens are refused (`OpenFlagTests`).
- `sys_open` never counts the descriptor it hands out.
- `sys_close` returns no value.
- `free_vpages` loops on `||`, so a missing page or a negative count ends in a
  NULL dereference. It never unlinks the tail entry.
- A heap shrink never lowers the break.
- A heap growth past the break's page on an empty page table dereferences
  NULL while it looks for the tail, so it crashes.
- `free_vpages` passes user addresses to `free_kpages`, which matches kernel
  addresses, so no frame is ever released (`UserPagesReleaseNothing`).
- `sys_waitpid` dereferences NULL when it unlinks an only child.
- `adopt_grand_children` crashes when either list is empty.

## Model

| member | source | states |
|---|---|---|
| Kern.KvaddrInjective | kern/arch/mips/vm/vm.c:123-124 | Two frames have the same kseg0 address exactly when they are the same frame, so free_kpages' address match identifies one frame |
| Coremap.FreeCountFindsFrame | kern/arch/mips/vm/vm.c:89-95 | The first-fit scan finds a frame if and only if some frame is free |
| Coremap.FreeCountClaimed | kern/arch/mips/vm/vm.c:90-92 | Claiming a free frame lowers the number of free frames by exactly one |
| Coremap.ReservedPagesHoldCoremap | kern/arch/mips/vm/vm.c:68-72 | vm_bootstrap reserves at least one page, and enough pages to hold a coremap entry for every frame left usable |
| Coremap.ClaimAddsFrame | kern/arch/mips/vm/vm.c:88-98 | The frame getppages claims was not in use, and afterwards the in-use set is the old one plus exactly that frame |
| Coremap.ReleaseRemovesFrame | kern/arch/mips/vm/vm.c:121-129 | Freeing the kernel address of a frame in use removes exactly that frame from the in-use set |
| Coremap.ClaimThenReleaseRestores | kern/arch/mips/vm/vm.c:118-128 | Allocating a frame and then freeing its kernel address restores the coremap exactly |
| Coremap.ClaimedFrameNotReissued | kern/arch/mips/vm/vm.c:89-94 | The next allocation after a claim picks a frame with a higher index, never the one just handed out |
| Coremap.Coremap.constructor | kern/arch/mips/vm/vm.c:44-45 | Before boot there is no coremap and the allocator is not initialised |
| Coremap.Coremap.CoremapInit | kern/arch/mips/vm/vm.c:49-60 | Frame i gets address lo_ram + i*PAGE_SIZE (in 32 bits), no owner, and is free |
| Coremap.Coremap.VmBootstrap | kern/arch/mips/vm/vm.c:62-75 | The first coremap_pages frames of RAM are reserved; the remaining frames follow them one page apart, all free; the allocator is switched on |
| Coremap.Coremap.GetPPages | kern/arch/mips/vm/vm.c:77-100 | Before initialisation it returns the stolen address and leaves the coremap alone; afterwards it marks the lowest-index free frame in use, changes no other entry, and returns that frame's address |
| Coremap.Coremap.AllocKpages | kern/arch/mips/vm/vm.c:103-112 | Returns the kseg0 address of the frame getppages chose, with the same coremap change |
| Coremap.Coremap.FreeKpages | kern/arch/mips/vm/vm.c:114-130 | Before initialisation nothing changes; afterwards the first frame whose kseg0 address equals addr is marked free and nothing else changes |
| TlbFault.MappingLo | kern/arch/mips/vm/vm.c:224 | The EntryLo word written has VALID and DIRTY set and still names the frame's page |
| TlbFault.RegionPaddr | kern/arch/mips/vm/vm.c:192-210 | A page outside region 1, region 2 and the 12-page stack has no frame; inside one, the frame is page-aligned |
| TlbFault.AlignedSum | kern/arch/mips/vm/vm.c:213 | A page-aligned offset plus a page-aligned base is page-aligned after 32-bit wrap, so the paddr KASSERT holds |
| TlbFault.Region1Injective | kern/arch/mips/vm/vm.c:199-201 | Within region 1 the translation is base plus offset, and two pages share a frame only if they are the same page |
| TlbFault.Region2Injective | kern/arch/mips/vm/vm.c:202-204 | Within region 2, outside region 1, the translation is base plus offset, and two pages share a frame only if they are the same page |
| TlbFault.StackInjective | kern/arch/mips/vm/vm.c:205-207 | Within the stack, outside both regions, the frame is `as_stackpbase` plus the offset above the stack base, and two pages share a frame only if they are the same page |
| TlbFault.Fault | kern/arch/mips/vm/vm.c:143-234 | Only a successful fault changes the TLB, and then exactly one slot: one that was invalid, now valid and mapping the faulting page |
| TlbFault.ReadWriteAlike | kern/arch/mips/vm/vm.c:157-166 | Read faults and write faults have identical outcomes |
| TlbFault.FaultInstallsInLowestInvalidSlot | kern/arch/mips/vm/vm.c:218-229 | A successful fault writes (page, paddr with DIRTY and VALID) into the lowest-index slot lacking VALID, and every slot before it was valid |
| TlbFault.FaultOutsideRegionsIsEfault | kern/arch/mips/vm/vm.c:208-210 | A fault outside both regions and the stack returns EFAULT and leaves the TLB unchanged |
| TlbFault.FullTlbIsEfault | kern/arch/mips/vm/vm.c:231-233 | When every slot is valid the fault fails and the TLB is unchanged |
| TlbFault.VmFault | kern/arch/mips/vm/vm.c:143-234 | The handler, with its slot loop over the TLB array, produces exactly the outcome and the TLB of Fault |
| AddrSpaces.RegionPageCount | kern/vm/addrspace.c:149-156 | Without wrap-around, the page count is the ceiling of (sz + vaddr mod PAGE_SIZE) / PAGE_SIZE |
| AddrSpaces.RegionCovers | kern/vm/addrspace.c:149-156 | Every byte of [vaddr, vaddr+sz) lies in one of the region's pages |
| AddrSpaces.StackPage | kern/vm/addrspace.c:218-228 | Each stack page is page-aligned and lies in the 12 pages below USERSTACK |
| AddrSpaces.StackPagesAreFaultStack | kern/vm/addrspace.c:218-229 | The 12 pages as_define_stack adds are pairwise distinct and are exactly the pages vm_fault serves as the stack |
| AddrSpaces.FreeHeap | kern/vm/addrspace.c:252-258 | free_heap is the unused tail of the break's page once a heap page exists, and 0 otherwise |
| AddrSpaces.GrowPages | kern/vm/addrspace.c:265 | The number of new heap pages is the ceiling of the excess over PAGE_SIZE |
| AddrSpaces.GrowInPlaceStaysInPage | kern/vm/addrspace.c:259-263 | A growth within free_heap stays inside the break's already mapped page |
| AddrSpaces.GrowCoversNewBreak | kern/vm/addrspace.c:264-299 | With a page-aligned heap base, the appended pages start where the mapped heap ends and reach the new break |
| AddrSpaces.FreeScanFreesRun | kern/vm/addrspace.c:316-340 | The pages handed to free_kpages are the consecutive run from vpage, one per page counted down; when the scan returns, it returns 0 and has freed exactly npages pages |
| AddrSpaces.FreeScanKeepsEnds | kern/vm/addrspace.c:329-334 | free_vpages keeps the entries before the cursor, never removes the head, and never unlinks the tail |
| AddrSpaces.FreeScanKeepsOrder | kern/vm/addrspace.c:326-338 | What remains is the old list with some entries deleted and the rest in their old order |
| AddrSpaces.FreeScanRemovesOnlyRun | kern/vm/addrspace.c:316-340 | Only entries of the freed run are removed: an entry whose page was not passed to free_kpages keeps its multiplicity, and no more entries go than pages were freed |
| AddrSpaces.FreeScanMissingPageCrashes | kern/vm/addrspace.c:320-321 | With pages still to free and none of them present, the loop on OR reaches the NULL cursor and dereferences it |
| AddrSpaces.FreeScanNegativeCrashes | kern/vm/addrspace.c:320-325 | A negative page count never returns to 0, so the scan always ends in the NULL dereference |
| AddrSpaces.AlignedShrinkCrashes | kern/vm/addrspace.c:304-311 | Shrinking a page-aligned break by one page sends free_vpages to the unmapped page at the break, which crashes the kernel |
| AddrSpaces.UserPagesReleaseNothing | kern/vm/addrspace.c:323 | free_kpages called with user addresses releases no frame |
| AddrSpaces.AddrSpace.constructor | kern/vm/addrspace.c:68-71 | A new address space has an empty page table, a zero heap base and break, and a zero stack base |
| AddrSpaces.AddrSpace.AsDefineRegion | kern/vm/addrspace.c:143-193 | Appends exactly RegionPageCount unallocated entries for consecutive pages from the rounded-down vaddr, keeps the earlier entries first and unchanged, and returns 0 |
| AddrSpaces.AddrSpace.AsDefineStack | kern/vm/addrspace.c:209-234 | Requires a non-empty table; appends 12 unallocated entries descending one page at a time from just below USERSTACK, and the stack pointer is USERSTACK |
| AddrSpaces.AddrSpace.FreeVpages | kern/vm/addrspace.c:316-341 | The table, the coremap and the result are those of the FreeScan specification, with every matching page passed to free_kpages in order; the table left is an order-preserving subsequence of the old one that lost only entries on freed pages, no more of them than pages freed |
| AddrSpaces.AddrSpace.GrowHeap | kern/vm/addrspace.c:264-299 | With enough page-table nodes, the break grows by the full request and GrowPages entries are appended from the page of cur_brk + free_heap; otherwise ENOMEM, with the table and break as before; an empty page table crashes at the walk to its tail, before any node is added |
| AddrSpaces.AddrSpace.SysSbrk | kern/vm/addrspace.c:236-314 | Reports the old break; 0 changes nothing; a growth within the page's tail only moves the break; a larger growth is GrowHeap, so on an empty page table it crashes; a shrink below the heap base is EINVAL; any other shrink runs free_vpages, removing only entries of the freed run and keeping the rest in order, crashes unless it returns 0, and leaves the break where it was |
| AddrSpaces.AddrSpace.AsDestroy | kern/vm/addrspace.c:111-123 | Every entry's frame is passed on to be freed, in list order, and the table ends empty |
| AddrSpaces.AsCreate | kern/vm/addrspace.c:59-73 | NULL exactly when kmalloc fails; otherwise a fresh, empty address space with zero heap base and break |
| AddrSpaces.AsActivate | kern/vm/addrspace.c:125-135 | Every TLB slot holds its own invalid entry, and none is valid |
| AddrSpaces.InvalidEntriesDistinct | kern/vm/addrspace.c:131-133 | The invalid entries as_activate writes have pairwise distinct EntryHi values |
| AddrSpaces.CopyFrame | kern/vm/addrspace.c:90-96 | A resident entry's copy gets a frame that was not in use, the in-use set grows by exactly that frame, and the frame holds the original frame's bytes |
| AddrSpaces.CopyTable | kern/vm/addrspace.c:88-105 | The copy has the same length; each entry keeps its page, state and swap offset; each resident entry has its own new frame holding the original's bytes; frames in use before keep their bytes |
| AddrSpaces.AsCopy | kern/vm/addrspace.c:75-109 | ENOMEM with nothing changed when as_create fails; otherwise a fresh address space whose table is the CopyTable copy and whose heap base and break are zero |
| Pids.LowestClearBits | kern/process/process.c:58-59 | The characterisation of the lowest clear bit: bit r is clear and every bit below it is set |
| Pids.HalvesFindLowestZero | kern/process/pid.c:52-60 | If both halves' searches land correctly, so does the choice between them by the lower-half test |
| Pids.GetPidIndex | kern/process/process.c:50-67 | The result lies in [0, n); it is the lowest clear bit among the low n bits, or n-1 when they are all set |
| Pids.ClearWordBits | kern/process/pid.c:9-16 | clear_pid clears exactly bit offset and leaves all other bits alone |
| Pids.SetWordBits | kern/process/pid.c:38-43 | set_pid's `&=` keeps bit offset as it was and clears every other bit of the word |
| Pids.PidAlloc | kern/process/pid.c:18-36 | -1 exactly when pid_count is MAX_PID-1 or every word is full, and then nothing changes; otherwise a PID in [0, MAX_PID) and the count rises by one |
| Pids.WordAlloc | kern/process/process.c:34-36 | In a word that is not full, the bit chosen is its lowest clear bit, and set_pid leaves it clear |
| Pids.PidAllocPicksFreePid | kern/process/process.c:33-38 | The PID comes from the first non-full word at that word's lowest clear bit, so it was free, and it is still marked free afterwards |
| Pids.PidAllocRepeatsOnEmptyMap | kern/process/process.c:45 | On an empty bitmap get_pid returns 0 and leaves the bitmap empty, so the next call returns 0 again |
| Pids.PidTable.constructor | kern/process/process.c:11-12 | At boot every PID is free and none is counted |
| Pids.PidTable.ClearPid | kern/process/process.c:14-21 | Word pid/32 becomes ClearWord of itself at bit pid%32, the other words are unchanged, and pid_count drops by one |
| Pids.PidTable.SetPid | kern/process/process.c:43-48 | Word index becomes SetWord of itself, pid_count rises by one, and the result is index*32 + offset |
| Pids.PidTable.GetPid | kern/process/process.c:23-41 | The PID, the bitmap and the count after the scan are exactly PidAlloc of the old bitmap and count |
| Processes.Process.constructor | kern/process/process.c:76-81 | A new record is running, with no open files, no children, exit code 0, the given father, and an empty 32-slot table |
| Processes.CreateProcessTable | kern/process/process.c:69-85 | The PID and the allocator's new state are PidAlloc's; the record is running, with no open files, no children, exit code 0, and the current process as father |
| FileSyscalls.SeekTarget | kern/syscall/file.c:38-53 | There is no target position exactly when whence is not SEEK_SET, SEEK_CUR or SEEK_END |
| FileSyscalls.SeekOrigins | kern/syscall/file.c:38-49 | SEEK_CUR and SEEK_END are SEEK_SET to offset+pos and size+pos; a relative seek by 0 stays put |
| FileSyscalls.SysLseek | kern/syscall/file.c:16-66 | A copyin error is returned first and changes nothing; a bad or empty descriptor gives EBADF, and descriptor 32 crashes; an unknown whence gives EINVAL; a TRYSEEK error leaves the offset unchanged; otherwise the offset becomes SeekTarget; the handle's vnode, flags and open count never change |
| FileSyscalls.SysDup2 | kern/syscall/file.c:107-149 | EBADF for bad descriptors or an empty oldfd; newfd == oldfd returns newfd and changes nothing; 32 crashes; EMFILE at the limit; otherwise newfd aliases oldfd's handle, and the handle's count and open_file_count each rise by one; a table whose counts cover its slots still does; every failure and the newfd == oldfd path leave the table, open_file_count and the handle as they were; the process's status, children, father and exit code and the handle's vnode, offset and flags never change |
| FileSyscalls.OpenFlagTests | kern/syscall/file_io.c:50-57 | The access test accepts exactly the flags with O_WRONLY or O_RDWR, refusing read-only opens; the creation test accepts exactly the flags with O_CREAT, O_TRUNC or O_APPEND |
| FileSyscalls.OpenEarlyError | kern/syscall/file_io.c:46-67 | sys_open gets past its early checks exactly when the table is not full, both flag tests pass, and copyinstr and vfs_open succeed; every error is non-zero |
| FileSyscalls.SysOpen | kern/syscall/file_io.c:35-95 | An early error changes nothing; otherwise the descriptor is the lowest empty slot, which gets a fresh handle with the vnode and flags; its offset is the file size with O_APPEND and 0 otherwise, and it is left unset on a stat error; no empty slot crashes; open_file_count never changes |
| FileSyscalls.SysWrite | kern/syscall/file_io.c:101-133 | A descriptor outside the table crashes and an empty slot gives EBADF; a handle not open for writing returns -1 and a VOP_WRITE error keeps the offset; on success the offset advances by the requested size and retval is size - resid; the handle's flags, vnode and open count never change |
| FileSyscalls.SysClose | kern/syscall/file_io.c:135-143 | The handle's count drops by one and the vnode is closed exactly when the old count was 1, and the handle's offset, flags and vnode are unchanged; an empty or out-of-range slot crashes |
| WaitExit.MkWaitStatus | kern/process/wait_exit.c:72 | A reported status always says "exited": its low two bits are __WEXITED |
| WaitExit.WaitStatusRoundTrip | kern/process/wait_exit.c:72 | WEXITSTATUS of the reported status gives back any exit code that fits in 30 bits |
| WaitExit.WaitTarget | kern/process/wait_exit.c:36-54 | The walk stops at the first child with the given PID, and finds none exactly when no child has it |
| WaitExit.RemoveAtDropsOne | kern/process/wait_exit.c:39-49 | Unlinking removes exactly one child, as a multiset, and the others keep their order |
| WaitExit.DestroyProcessTable | kern/process/wait_exit.c:80-92 | The child's PID is cleared in the allocator (clear_pid), and a PID outside the bitmap crashes |
| WaitExit.SysWaitpid | kern/process/wait_exit.c:15-78 | A failed copyin crashes; options != 0, no children or no match return 1 with nothing changed; otherwise the first matching child is unlinked (an only child crashes after the list empties), the status is MkWaitStatus of its exit code, its PID is written back, and its PID is freed |
| WaitExit.AdoptGrandChildren | kern/process/wait_exit.c:148-167 | Every child gets the new father; the children are appended after the father's list; a missing father, an empty father's list or no children crash; open-file counts, and the father's own father, are untouched |
| WaitExit.CoveredTableNeverReleasedEarly | kern/process/wait_exit.c:112-124 | When every handle's count covers the slots pointing at it, no slot meets a handle an earlier slot already freed |
| WaitExit.ReleaseSlots | kern/process/wait_exit.c:112-124 | It crashes exactly on an empty slot or a handle freed at an earlier slot; otherwise every handle loses one count per slot, and a handle is closed exactly when its count equalled its number of slots |
| WaitExit.SysExit | kern/process/wait_exit.c:94-145 | Every child's father becomes the exiting process's father; adoption crashes as above; otherwise the father's list is its old list followed by the exiting process's children, the slot loop runs as ReleaseSlots, then the exit code is recorded and the status is PS_ZTERM; the process's own children, father and open_file_count stay as they were |
| Syscall.InitialRetval | kern/arch/mips/syscall/syscall.c:116-156 | retval starts at 0, except for waitpid, where it starts as a0 read as an int32_t |
| Syscall.EncodeResult | kern/arch/mips/syscall/syscall.c:170-183 | a3 is 1 exactly when there is an error and 0 exactly when there is none |
| Syscall.EncodeDecode | kern/arch/mips/syscall/syscall.c:170-183 | User level decodes (v0, a3) back into the error, or into the return value on success, for any 32-bit values |
| Syscall.UnknownCallFails | kern/arch/mips/syscall/syscall.c:163-166 | A call number with no case reaches user level as ENOSYS |
| Syscall.QuietSuccessReturnsInitial | kern/arch/mips/syscall/syscall.c:107-116 | A handler that succeeds without storing a value returns 0, or its own argument for waitpid |
| Syscall.Dispatch | kern/arch/mips/syscall/syscall.c:94-196 | Except after _exit, the trapframe gets EncodeResult of the dispatched error and return value, and epc advances by exactly 4 |

## Left out

- kern/vm/swap.c, kern/process/fork.c, kern/process/exec.c, kern/synchprobs/problems.c and the user test programs are not part of this model. They are a stub, thread and lock handshakes, loader and VFS wrappers, and concurrency exercises.
- Locks, spinlocks, `splhigh`/`splx`, condition variables and `thread_exit` are left out, because the model is sequential. `sys_waitpid`'s wait is always entered, since its `!= PS_ZTERM || != PS_ZSTOP` test is always true. The modelled path is a child that exits while its parent is already blocked in `cv_wait`, so the exit code read afterwards is the final one. If the child has exited before the parent reaches `cv_wait`, its single `cv_signal` (kern/process/wait_exit.c:130) found no waiter, and the parent blocks forever; that lost wakeup is a hang in the source, and the model does not represent it.
- `kfree` is not modelled: a freed object just stops being reachable, or is listed in `closed`. A tail page-table entry that `free_vpages` frees stays in the list, because the source leaves it linked.
- VFS and VOP calls (`vfs_open`, `vfs_close`, `VOP_STAT`, `VOP_TRYSEEK`, `VOP_WRITE`), `copyin`, `copyinstr` and `copyout` are parameters. `vfs_close` is the `closes` flag or the `closed` list.
- `ram_getsize` and `ram_stealmem` are parameters. `tlb_read`/`tlb_write` are reads and writes of an array. `memmove` of page bytes is an update of a map from frame to bytes.
- `free_coremap`, `__close`, `sys_read`, `sys_fork`, `sys_getpid`, `sys___time` and `sys_reboot` are not defined in the core files. The dispatcher takes their outcome as an input. In `sys_dup2`, `__close` is taken to change nothing.
- `open_std_streams`, `sys_chdir`, `sys___getcwd`, `as_prepare_load`, `as_complete_load` and the TLB shootdown stubs are not modelled.
- The lock, condition-variable and name fields of the records, and the argument registers a1 and a2 of the trapframe, are not modelled.
- `off_t` offsets and the `int` counts are unbounded integers: the 64-bit and 32-bit overflow of lseek positions, write offsets, open counts and exit codes is not modelled.
- Several constants come from standard OS/161 headers that are not in the repository:
  - errno values ENOSYS 1, ENOMEM 3, EFAULT 6, EINVAL 8, EMFILE 28, EBADF 30;
  - open flags and SEEK values;
  - system-call numbers;
  - TLB bits;
  - `_MKWVAL(x) = x << 2` and `__WEXITED = 0`.
- `FILES_PER_PROCESS` is defined nowhere in the repository. It is taken to be 32, the table size.
- Pids.GetPidIndex: `get_pid_index` shifts a signed `int`, so its `>>=` copies the sign bit in. The search only looks at the low bits, which a logical shift leaves the same, so the words are `bv32`.
- Processes.CreateProcessTable: the file table `kmalloc` returns is not cleared in the source. The model starts every slot empty, which is what every later system call relies on.
- AddrSpaces.AsCopy: requires a non-empty source list. From an empty list the source keeps a node whose entry was never written.
- AddrSpaces.AsCopy: also requires at least as many free frames as the source has resident pages, and so does AddrSpaces.CopyTable. A fork that runs out of frames panics at the getppages KASSERT (kern/arch/mips/vm/vm.c:98). The model does not represent that panic.
- AddrSpaces.AddrSpace.AsDefineRegion: requires at least one page when the table is empty. Otherwise the `size_t` page count would wrap to about 4 billion after its decrement.
- Coremap.Coremap.GetPPages: the KASSERT that an address was found is a precondition, so callers must guarantee a free frame with a non-zero address.
