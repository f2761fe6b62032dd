# os4 task scheduling and syscalls, in Dafny

This project models the task layer of the os4 teaching kernel for a single-core
RISC-V machine, and proves properties of that model. The layer has these parts:

- the task manager, which runs a fixed set of tasks round robin;
- the per-task bookkeeping: syscall counters, the start timestamp, and the list of
  mapped areas of each address space;
- the memory syscalls `mmap`/`munmap` and the process syscalls `exit`, `yield`,
  `get_time` and `task_info`;
- the case analysis of the trap handler.

Modules, one per source file or concept:

- `Config`: page size, `MAX_SYSCALL_NUM`, clock scale, word widths, and the
  trampoline and trap-context addresses.
- `Outcome`: `Option`/`Result`, the kernel-fatal conditions (`Fatal`), and the
  `Step` a scheduling or trap step ends with: resume the same task, switch from
  one task into another, or halt.
- `Address`: page numbers of virtual addresses (`Floor`, `Ceil`, `PageOffset`),
  and the translation of a user pointer through a page table. The page table is
  modelled as a partial map from virtual to physical page numbers.
- `MemorySet`: an address space's ordered list of areas. Each area is a
  half-open range of virtual page numbers with one permission set. This module
  holds the overlap test of `map_range` and the `retain_mut` pass of
  `unmap_range`, with the proof that an unmap succeeds exactly when the areas it
  drops cover the requested pages.
- `TaskControl`: `TaskStatus`, the task control block as a record, and its
  construction.
- `Task`: the next-ready-task search as pure functions with their round-robin
  properties. Also the `TaskManager` class, whose fields are the task list and
  the current index. Its methods are the in-place state updates of the source.
- `SyscallMemory`, `SyscallProcess`: the syscalls. Writes through translated
  user pointers update an abstract physical memory, a map from location to
  written object.
- `Trap`: `trap_handler`'s dispatch on the trap cause, and `trap_from_kernel`.
- `Scenarios`: whole runs from boot (one task that yields and exits, two tasks
  that alternate, no task).

Modelling choices:

- A context switch (`__switch`) is modelled only as the state update before it.
  The method returns `Switch(from, to)`.
- A `panic!` in a scheduling or trap step is modelled as `Halt(reason)`. This
  covers four cases: no Ready task, no task to start, an unsupported trap cause,
  and a trap taken in the kernel.
- In `get_time` and `task_info`, the `unwrap` of an untranslatable user pointer
  also ends the kernel. The methods return it as `Err(UnmappedUserPointer)`, with
  memory unchanged.
- The index `tasks[current]` cannot panic once the kernel has started, so an
  existing task is a precondition. The one exception is `run_first_task`
  indexing task 0. It runs at boot even with no application, so it is modelled
  as `Halt(NoTaskToStart)`.
- The syscalls translate user pointers the way the source does: the current
  task's `satp` token names a page-table root frame, and physical memory holds
  the page table rooted there. `PhysMemory.HoldsPageTablesOf` states that each
  task's page table is the one rooted at its own frame. That page table is the
  one `from_elf` built. `mmap` and `munmap` change only the area list, so the
  syscalls translate user pointers through the boot-time mappings (see
  "## Left out").
- `trap_handler` works on the trap context held in physical memory at the
  current task's trap-context frame (`current_trap_ctx`). This is the frame the
  task's own page table maps the trap-context page to.
- Clock readings are parameters: `now` in milliseconds and `us` in microseconds.
- `syscall`, the dispatcher called by `trap_handler`, is a parameter that maps a
  syscall id and three arguments to an `isize` result.
- Arithmetic follows a release build: the `u32` syscall counters wrap, and the
  syscall result is reinterpreted `as usize`.

Edge behaviour of the code:

- With no application, `run_first_task` does not reach the "All application
  completed!" panic. It panics earlier, when it indexes task 0. The model reports
  this as `Halt(NoTaskToStart)`.
- A run in which the last task calls `exit` ends with the "All application
  completed!" halt. `Scenarios.OneAppYieldThenExit` shows this.
- `run_first_task` stamps task 0's start time unconditionally and does not
  assign `current_task`.
- The doc-comment of `sys_mmap` lists the `port` bits as exec, write, read from
  bit 0 up. The code reads them as R, W, X (`SyscallMemory.PortBitOrder`).

## Model

| member | source | states |
|---|---|---|
| `Address.Floor` | os4/src/task/mod.rs:152 | the page holding an address: `vpn * PAGE_SIZE <= va < (vpn + 1) * PAGE_SIZE` |
| `Address.Ceil` | os4/src/task/mod.rs:152 | the first page boundary at or above an address, less than one page above it |
| `Address.PageOffset` | os4/src/syscall/process.rs:40 | the offset is below `PAGE_SIZE`, and the page base plus the offset gives back the address |
| `Address.Translate` | os4/src/syscall/process.rs:34-40 | a user pointer translates iff its page is mapped; the result is the mapped frame at the pointer's page offset |
| `MemorySet.VpnRangeOf` | os4/src/task/mod.rs:152 | `floor(start)..ceil(start+len)` is well formed, covers every byte requested, and is at most one page wider at each end |
| `MemorySet.OverlapsIffSharedPage` | os4/src/task/mod.rs:156 | a non-empty intersection means exactly that the two ranges share a page |
| `MemorySet.ContainedInBounds` | os4/src/task/mod.rs:187 | `intersection == vpn_range` means the area's bounds lie inside the request, so all its pages do too |
| `MemorySet.Mapped` | os4/src/task/mod.rs:154-165 | the area list is unchanged on overlap, and otherwise gains exactly one area at the end; pairwise disjointness and well-formedness are preserved |
| `MemorySet.RetainUncontained` | os4/src/task/mod.rs:182-194 | the `retain_mut` loop keeps exactly the uncontained areas in order and sums the pages of the dropped ones |
| `MemorySet.RetainedMembers` | os4/src/task/mod.rs:185-194 | an area survives unmap iff it was present and is not wholly inside the request; partially overlapping areas stay |
| `MemorySet.RetainedKeepsInvariant` | os4/src/task/mod.rs:185-194 | unmapping keeps the areas well formed and pairwise disjoint |
| `MemorySet.RemovedPagesCount` | os4/src/task/mod.rs:188 | for disjoint areas, the summed page count equals the number of distinct pages dropped |
| `MemorySet.UnmapSucceedsIffCovered` | os4/src/task/mod.rs:195 | `unmaped_count == end - start` iff every requested page lies in a dropped area |
| `MemorySet.PartialOverlapFails` | os4/src/task/mod.rs:185-195 | for disjoint areas, an unmap request that shares a page with an area but does not contain it reports failure |
| `MemorySet.FreedWithinRequest` | os4/src/task/mod.rs:188-195 | the pages freed never exceed the pages requested |
| `TaskControl.New` | os4/src/task/tcb.rs:32-65 | a new task is Ready, not started (`start_time` 0), has `MAX_SYSCALL_NUM` zero counters and `base_size` = user stack top, and its trap context is the frame its own page table maps `TRAP_CONTEXT` to |
| `TaskControl.TrapCtxLoc` | os4/src/task/tcb.rs:66-68 | the trap context starts its frame, and for a valid block it is where the task's own page table sends `TRAP_CONTEXT` |
| `TaskControl.UserSatp` | os4/src/task/tcb.rs:69-71 | the token fits a `usize`, carries the Sv39 mode 8 in its top four bits, and `from_satp` recovers the task's own page-table root from it |
| `Task.FindReady` | os4/src/task/mod.rs:60-63 | `find` returns the first Ready index of the range, or None when the range has none |
| `Task.NextReady` | os4/src/task/mod.rs:57-64 | None iff no task is Ready; otherwise a Ready index below `num_app`: the first one after `current`, and only if there is none, the first one in `0..=current` |
| `Task.NextReadyIsCyclicallyNearest` | os4/src/task/mod.rs:57-64 | the chosen task is the unique Ready task nearest after `current` in cyclic order |
| `Task.RoundRobinSkipsExited` | os4/src/task/mod.rs:57-64 | `[Ready, Exited, Ready]` from 0 picks 2, from 2 wraps to 0; all Exited gives None |
| `Task.AloneIsRescheduled` | os4/src/task/mod.rs:63 | when the current task is the only Ready one, the wrap-around scan returns it |
| `Task.OtherReadyIsPreferred` | os4/src/task/mod.rs:61-63 | when another task is Ready, the current one is not chosen |
| `Task.IncrU32` | os4/src/task/mod.rs:140 | a counter below `2^32` goes up by one, and wraps to 0 from the maximum |
| `Task.StartTimeAfterSwitch` | os4/src/task/mod.rs:72-74 | after a switch into a task, its start time is `now` if it was 0, and is unchanged otherwise |
| `Task.TaskManager.constructor` | os4/src/task/mod.rs:18-37 | one task per application image, built by `New`, with task 0 current |
| `Task.TaskManager.MarkCurrent` | os4/src/task/mod.rs:51-56 | only the current task's status changes; `current` is unchanged |
| `Task.TaskManager.RunNextTask` | os4/src/task/mod.rs:65-87 | halts iff nothing is Ready; otherwise the chosen task becomes current and Running, its start time is set only if it was 0, and no other task changes; Exited tasks stay as they are; after a switch, `start_time()` reads the first scheduling time |
| `Task.TaskManager.RunFirstTask` | os4/src/task/mod.rs:89-104 | task 0 becomes Running with its start time set; `current` is unchanged; with no task it halts |
| `Task.TaskManager.SuspendCurrentAndRunNext` | os4/src/task/mod.rs:107-110 | marks the current task Ready, then runs next; it never halts, and a task alone in being Ready is rescheduled |
| `Task.TaskManager.ExitCurrentAndRunNext` | os4/src/task/mod.rs:112-115 | marks the current task Exited, then runs next; it never picks the exited task, and halts iff no other task was Ready |
| `Task.TaskManager.CurrentTrapCtx` | os4/src/task/mod.rs:117-120 | the current task's page table translates `TRAP_CONTEXT` to exactly this location |
| `Task.TaskManager.CurrentUserSatp` | os4/src/task/mod.rs:122-125 | the token names the current task's page-table root and no other task's |
| `Task.TaskManager.SetSyscallTimes` | os4/src/task/mod.rs:132-135 | the output slice becomes a copy of the current task's counters |
| `Task.TaskManager.IncrSyscallTimes` | os4/src/task/mod.rs:137-141 | exactly the current task's counter for the id goes up (wrapping); nothing else changes |
| `Task.TaskManager.StartTime` | os4/src/task/mod.rs:143-146 | the current task's start time; `RunNextTask`, `RunFirstTask` and `StartTimeAfterSwitch` fix what it reads after a switch (the first scheduling time) |
| `Task.TaskManager.MapRange` | os4/src/task/mod.rs:149-166 | false with nothing changed iff an existing area intersects the requested pages; otherwise one area covering exactly those pages is appended; areas stay pairwise disjoint |
| `Task.TaskManager.UnmapRange` | os4/src/task/mod.rs:177-196 | drops exactly the contained areas, keeping the rest in order; true iff the freed page count equals the requested page count |
| `SyscallMemory.ValidPortsAreOneToSeven` | os4/src/syscall/memory.rs:11 | the two `port` checks accept exactly the values 1 to 7 |
| `SyscallMemory.MapPermOf` | os4/src/syscall/memory.rs:14-23 | always U; R iff bit 0, W iff bit 1, X iff bit 2 |
| `SyscallMemory.MapPermRoundTrip` | os4/src/syscall/memory.rs:14-23 | decoding is a bijection between ports 1..7 and user permissions granting some access |
| `SyscallMemory.ValidPortGrantsAccess` | os4/src/syscall/memory.rs:11-23 | an accepted port grants at least one of R, W, X |
| `SyscallMemory.PortBitOrder` | os4/src/syscall/memory.rs:14-23 | port 1 gives R, port 4 gives X, port 3 gives RW (all with U) |
| `SyscallMemory.SysMmap` | os4/src/syscall/memory.rs:10-29 | -1 with nothing changed for an unaligned start or a bad port; otherwise 0 iff no area overlaps; the new task list is the old one with only the current task's area list replaced by `Mapped`'s (the decoded area appended on success); only 0 or -1 is returned |
| `SyscallMemory.SysMunmap` | os4/src/syscall/memory.rs:36-45 | -1 with nothing changed for an unaligned start; otherwise 0 iff the freed pages equal the requested pages, and the new task list is the old one with only the current task's area list replaced by the retained areas; a request cutting through an area gives -1; only 0 or -1 is returned |
| `SyscallProcess.SplitMicros` | os4/src/syscall/process.rs:41-43 | `usec < MICRO_PER_SEC` and `sec * MICRO_PER_SEC + usec == us` |
| `SyscallProcess.SplitMicrosMonotonic` | os4/src/syscall/process.rs:41-43 | a later reading never yields an earlier `(sec, usec)` pair |
| `SyscallProcess.SysExit` | os4/src/syscall/process.rs:8-12 | the exit transition; the caller is never resumed |
| `SyscallProcess.SysYield` | os4/src/syscall/process.rs:19-22 | the suspend transition, which always switches, then 0 |
| `SyscallProcess.SysGetTime` | os4/src/syscall/process.rs:33-49 | translates `ts` through the page table the current token names (the current task's), writes the split time there and returns 0; `Err(UnmappedUserPointer)` with memory unchanged if `ts` is unmapped |
| `SyscallProcess.SysTaskInfo` | os4/src/syscall/process.rs:62-76 | translates `ti` through the page table the current token names, writes Running, the current counters and `now - start_time` there and returns 0; `Err(UnmappedUserPointer)` with memory unchanged if `ti` is unmapped |
| `Trap.Classify` | os4/src/trap/mod.rs:29-54 | user ecall is a syscall; store fault, store/load page fault and illegal instruction kill the task; the supervisor timer preempts; every other cause is unsupported |
| `Trap.AsUsize` | os4/src/trap/mod.rs:32 | `isize as usize` keeps non-negative results and maps a negative one to `2^64 + v` |
| `Trap.TrapHandler` | os4/src/trap/mod.rs:24-57 | on the trap context at the current task's trap-context frame: syscall: `sepc += 4`, `x[10]` := the dispatcher's result and no other register changes; faults: the exit transition; timer: the suspend transition; anything else halts; outside a syscall the context is unchanged |
| `Trap.TrapFromKernel` | os4/src/trap/mod.rs:89-91 | for every cause, halts the kernel with the tasks and the trap context unchanged |
| `Scenarios.OneAppYieldThenExit` | os4/src/task/mod.rs:89-115 | one task: the yield switches back into it, and the exit ends in "All application completed!" |
| `Scenarios.TwoAppsAlternate` | os4/src/task/mod.rs:57-110 | two tasks: each yield hands the processor to the other, and an exit passes it on |
| `Scenarios.NoApps` | os4/src/task/mod.rs:89-97 | with no task, starting the first task halts |

## Left out

- Assembly primitives are not modelled. These are `__switch`, the trampoline jump
  in `trap_return` (including `fence.i` and the `__alltraps`/`__restore` offset
  arithmetic), and the saved `TaskContext`. A switch is only the state update
  before it.
- CSR access is not modelled (`stvec`, `sie`, `scause::read`, `stval::read`). The
  cause is a parameter. The `stval` value appears only in the panic message.
- `lazy_static!` and the `UPSafeCell` guard are not modelled. The manager is an
  explicit object; the non-reentrancy guard has no single-core meaning to verify.
- `MemorySet::from_elf`, ELF parsing, the kernel-stack area inserted into
  `KERNEL_SPACE`, and `TrapContext::app_init_context` are not modelled. Their
  source is not part of this model. `New` takes the address space and user stack
  top as given.
- Page-table updates are not modelled. `insert_framed_area` maps frames and
  `MapArea::unmap` unmaps them; both are outside this model. `MapRange` and
  `UnmapRange` change only the area list, and `Translate` reads a page table taken
  as given.
- `MapArea::intersection` is defined here as the range from the larger start to
  the smaller end, because its source is not part of this model. The `satp`
  token and `PageTable::from_satp` follow the Sv39 `satp` layout of the RISC-V
  privileged architecture, because `page_table.rs` is not part of this model.
- `Task.TaskManager.constructor` takes four properties of what `from_elf` returns
  as given, because `from_elf` is not part of this model: the address space maps
  the trap-context page; its areas are well formed and pairwise disjoint; its
  page-table root frame fits the 44-bit `satp` field; and different
  applications get different root frames.
- Trap contexts, page tables and the objects the syscalls write are kept in
  separate maps. In the source they share physical memory, and `translate` does
  not check the U bit. So a `get_time` or `task_info` pointer into the
  trap-context page would overwrite saved registers. That aliasing is not
  modelled.
- Config values are taken as the usual ones for this kernel: 4096-byte pages,
  500 syscall counters, `TRAMPOLINE` in the top page, `TRAP_CONTEXT` one page
  below it. `config.rs` is not part of this model.
- The frame allocator, and its panic when frames run out, are not modelled.
- Logging, `set_next_trigger` and the timer reads are not modelled. Times are
  parameters.
- The syscall dispatcher and `syscall/mod.rs` are not part of this model.
  `TrapHandler` receives the dispatcher as a function, so a syscall's own effects
  on the scheduler are not composed into the handler. They are the `Sys*` members.
- `mm/mod.rs` `init` (boot plumbing) is not modelled.
- Physical memory is a map from location to written object. A `TimeVal` or
  `TaskInfo` that straddles a page boundary is not modelled byte by byte.
- Task.TaskManager.MapRange: `start + len` is unbounded here. The `usize`
  overflow (a debug panic, a release wrap) for a range that reaches past 2^64 is
  not modelled.
- Task.TaskManager.UnmapRange: the same `start + len` overflow is not modelled.
- Task.TaskManager.UnmapRange: the page table is not updated, so the area list
  and the page table drift apart. Three consequences follow:
  - Pages that `mmap` added later do not translate in the model, although
    `insert_framed_area` maps them in the source.
  - Pages of areas that `munmap` dropped still translate in the model, although
    the source unmaps them and frees their frames.
  - The source accepts a request that covers `[TRAP_CONTEXT, TRAMPOLINE)`, the
    user stack or the code areas, and drops those areas, which the kernel still
    needs. `Valid()` keeps the trap-context mapping after such a request only
    because page-table updates are not modelled.
- Task.TaskManager.MapRange: the new area's pages are not entered in the page
  table, for the same reason.
- SyscallProcess.SysTaskInfo: requires `now >= start_time`, as a monotonic clock
  guarantees. The `usize` underflow for an earlier `now` is not modelled.
- Trap.TrapHandler: `sepc += 4` is unbounded here. A wrap past 2^64 is not
  modelled.
- Task.TaskManager.IncrSyscallTimes: requires `syscallId < MAX_SYSCALL_NUM`.
  `trap_handler` passes the user's `a7` on unchecked, and `incr_syscall_times`
  indexes `syscall_count[syscall_id]` without a bounds check, so a larger id
  makes it panic unless the dispatcher rejects the id first. The dispatcher is
  not part of this model, so that panic is not modelled.
