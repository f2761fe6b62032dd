/** The `exit`, `yield` (124), `get_time` (169) and `task_info` (410) syscalls. */
module SyscallProcess {
  import opened Config
  import opened Outcome
  import opened Address
  import opened MemorySet
  import opened TaskControl
  import opened Task

  /** `TimeVal`: seconds and microseconds. */
  datatype TimeVal = TimeVal(sec: nat, usec: nat)

  /** What the kernel can have written at a physical location on a user's behalf. */
  datatype UserObject =
    | TimeValObject(tv: TimeVal)
    | TaskInfoObject(status: TaskStatus, syscallTimes: seq<nat>, time: nat)

  /**
   * Physical memory as the syscalls see it: the page tables it holds, by
   * root frame, and the object `as_mut_at` has written at each location.
   */
  class PhysMemory {
    var pageTables: map<nat, map<nat, nat>>
    var objects: map<Loc, UserObject>

    constructor (pageTables: map<nat, map<nat, nat>>)
      ensures this.pageTables == pageTables && objects == map[]
    {
      this.pageTables := pageTables;
      objects := map[];
    }

    /** Every task's page table is the one rooted at that task's root frame. */
    ghost predicate HoldsPageTablesOf(tm: TaskManager)
      reads this, tm
    {
      forall i :: 0 <= i < |tm.tasks| ==>
        tm.tasks[i].memSet.rootPpn in pageTables && pageTables[tm.tasks[i].memSet.rootPpn] == tm.tasks[i].memSet.pageTable
    }

    /**
     * `PageTable::from_satp(satp)`, then `translate` through it: the page
     * table rooted at the frame the token names.
     */
    function FromSatp(satp: nat): (pageTable: map<nat, nat>)
      reads this
      requires RootPpnOf(satp) in pageTables
    {
      pageTables[RootPpnOf(satp)]
    }
  }

  /** The `(sec, usec)` split of a microsecond clock reading. */
  function SplitMicros(us: nat): (tv: TimeVal)
    ensures tv.usec < MICRO_PER_SEC
    ensures tv.sec * MICRO_PER_SEC + tv.usec == us
  {
    TimeVal(us / MICRO_PER_SEC, us % MICRO_PER_SEC)
  }

  predicate NotLater(a: TimeVal, b: TimeVal) {
    a.sec < b.sec || (a.sec == b.sec && a.usec <= b.usec)
  }

  /** A later clock reading never yields an earlier `(sec, usec)` pair. */
  lemma SplitMicrosMonotonic(us1: nat, us2: nat)
    requires us1 <= us2
    ensures NotLater(SplitMicros(us1), SplitMicros(us2))
  {
  }

  /** `sys_exit`: the exit transition; the caller is never resumed. */
  method SysExit(tm: TaskManager, exitCode: int, now: nat) returns (step: Step)
    requires tm.Valid() && tm.numApp > 0
    modifies tm
    ensures tm.Valid()
    ensures RunNextEffect(WithStatus(old(tm.tasks), old(tm.current), Exited), old(tm.current), tm.tasks, tm.current, now, step)
    ensures step != Resume && step != Switch(Some(old(tm.current)), old(tm.current))
  {
    step := tm.ExitCurrentAndRunNext(now);
  }

  /** `sys_yield`: the suspend transition, which always finds a task to run, then 0. */
  method SysYield(tm: TaskManager, now: nat) returns (step: Step, ret: int)
    requires tm.Valid() && tm.numApp > 0
    modifies tm
    ensures tm.Valid()
    ensures RunNextEffect(WithStatus(old(tm.tasks), old(tm.current), Ready), old(tm.current), tm.tasks, tm.current, now, step)
    ensures step.Switch? && ret == 0
  {
    step := tm.SuspendCurrentAndRunNext(now);
    ret := 0;
  }

  /**
   * `sys_get_time`: writes the split of the clock reading `us` where the
   * caller's page table sends `ts`, and returns 0; the `unwrap` on an
   * unmapped `ts` halts the kernel. `tz` is ignored.
   */
  method SysGetTime(tm: TaskManager, mem: PhysMemory, ts: nat, tz: nat, us: nat) returns (r: Result<int, Fatal>)
    requires tm.Valid() && tm.numApp > 0 && mem.HoldsPageTablesOf(tm)
    modifies mem
    ensures mem.pageTables == old(mem.pageTables)
    ensures var loc := Translate(tm.tasks[tm.current].memSet.pageTable, ts);
            && (loc.None? ==> r == Err(UnmappedUserPointer) && mem.objects == old(mem.objects))
            && (loc.Some? ==> r == Ok(0) && mem.objects == old(mem.objects)[loc.value := TimeValObject(SplitMicros(us))])
  {
    var pageTable := mem.FromSatp(tm.CurrentUserSatp());
    var loc := Translate(pageTable, ts);
    if loc.None? {
      return Err(UnmappedUserPointer);
    }
    mem.objects := mem.objects[loc.value := TimeValObject(TimeVal(us / MICRO_PER_SEC, us % MICRO_PER_SEC))];
    r := Ok(0);
  }

  /**
   * `sys_task_info`: writes, where the caller's page table sends `ti`,
   * status Running, a copy of the current task's syscall counters and the
   * milliseconds since it was first scheduled, and returns 0; the `unwrap`
   * on an unmapped `ti` halts the kernel.
   */
  method SysTaskInfo(tm: TaskManager, mem: PhysMemory, ti: nat, now: nat) returns (r: Result<int, Fatal>)
    requires tm.Valid() && tm.numApp > 0 && mem.HoldsPageTablesOf(tm)
    requires now >= tm.StartTime()
    modifies mem
    ensures mem.pageTables == old(mem.pageTables)
    ensures var t := tm.tasks[tm.current];
            var loc := Translate(t.memSet.pageTable, ti);
            && (loc.None? ==> r == Err(UnmappedUserPointer) && mem.objects == old(mem.objects))
            && (loc.Some? ==>
                  r == Ok(0) &&
                  mem.objects == old(mem.objects)[loc.value := TaskInfoObject(Running, t.syscallCount, now - t.startTime)])
  {
    var pageTable := mem.FromSatp(tm.CurrentUserSatp());
    var loc := Translate(pageTable, ti);
    if loc.None? {
      return Err(UnmappedUserPointer);
    }
    var times := new nat[MAX_SYSCALL_NUM];
    tm.SetSyscallTimes(times);
    var startTime := tm.StartTime();
    mem.objects := mem.objects[loc.value := TaskInfoObject(Running, times[..], now - startTime)];
    r := Ok(0);
  }
}
