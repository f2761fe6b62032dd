/** The task control block: one task's status, address space and accounting. */
module TaskControl {
  import opened Config
  import opened Outcome
  import opened Address
  import opened MemorySet

  datatype TaskStatus = UnInit | Ready | Running | Exited

  /**
   * The fields of `TaskControlBlock` that the scheduler and the syscalls
   * read or update. The saved register context used by `__switch` is not
   * part of the model.
   */
  datatype TaskControlBlock = TaskControlBlock(
    status: TaskStatus,
    memSet: MemorySet,
    trapCtxPpn: nat,
    baseSize: nat,
    syscallCount: seq<nat>,
    startTime: nat)

  /** What `MemorySet::from_elf` hands back: the address space and the user stack top. */
  datatype AppImage = AppImage(memSet: MemorySet, userSp: nat)

  /**
   * The address-space invariant: areas are well formed and pairwise
   * disjoint, and the root frame fits the `satp` page-number field.
   */
  predicate MemorySetValid(ms: MemorySet) {
    AreasWellFormed(ms.areas) && AreasDisjoint(ms.areas) && ms.rootPpn < SATP_PPN_MODULUS
  }

  /**
   * The block invariant: one `u32` counter per syscall id, a valid address
   * space, and `trap_ctx_ppn` is the frame that address space maps the
   * trap-context page to.
   */
  predicate TcbValid(t: TaskControlBlock) {
    && |t.syscallCount| == MAX_SYSCALL_NUM
    && (forall id :: 0 <= id < |t.syscallCount| ==> t.syscallCount[id] < U32_MODULUS)
    && MemorySetValid(t.memSet)
    && Floor(TRAP_CONTEXT) in t.memSet.pageTable
    && t.memSet.pageTable[Floor(TRAP_CONTEXT)] == t.trapCtxPpn
  }

  /** The image can be turned into a task: its address space maps the trap-context page. */
  predicate Loadable(app: AppImage) {
    Floor(TRAP_CONTEXT) in app.memSet.pageTable
  }

  /**
   * `TaskControlBlock::new`, given what `from_elf` built: a Ready task that
   * has not started, with zeroed counters, whose trap context lives in the
   * frame its own address space maps the trap-context page to.
   */
  function New(app: AppImage): (t: TaskControlBlock)
    requires Loadable(app)
    ensures t.status == Ready
    ensures |t.syscallCount| == MAX_SYSCALL_NUM && forall id :: 0 <= id < MAX_SYSCALL_NUM ==> t.syscallCount[id] == 0
    ensures t.startTime == 0
    ensures t.baseSize == app.userSp && t.memSet == app.memSet
    ensures Translate(t.memSet.pageTable, TRAP_CONTEXT) == Some(TrapCtxLoc(t))
    ensures MemorySetValid(app.memSet) ==> TcbValid(t)
  {
    TaskControlBlock(
      Ready,
      app.memSet,
      app.memSet.pageTable[Floor(TRAP_CONTEXT)],
      app.userSp,
      seq(MAX_SYSCALL_NUM, _ => 0),
      0)
  }

  /**
   * `trap_ctx`: the physical location of the task's trap context, the start
   * of `trap_ctx_ppn`; for a valid block it is where the task's own page
   * table sends `TRAP_CONTEXT`.
   */
  function TrapCtxLoc(t: TaskControlBlock): (loc: Loc)
    ensures loc.offset == 0
    ensures TcbValid(t) ==> Translate(t.memSet.pageTable, TRAP_CONTEXT) == Some(loc)
  {
    Loc(t.trapCtxPpn, 0)
  }

  /**
   * `user_satp`: the Sv39 `satp` token of the task's page table, from which
   * `PageTable::from_satp` recovers the root frame.
   */
  function UserSatp(t: TaskControlBlock): (satp: nat)
    requires MemorySetValid(t.memSet)
    ensures satp < USIZE_MODULUS
    ensures satp / 0x1000_0000_0000_0000 == 8
    ensures RootPpnOf(satp) == t.memSet.rootPpn
  {
    SATP_MODE_SV39 + t.memSet.rootPpn
  }
}
