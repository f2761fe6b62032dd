/**
 * The task manager: a fixed list of task control blocks, the index of the
 * running task, the round-robin choice of the next task, and the per-task
 * accounting and address-space helpers the syscalls use.
 */
module Task {
  import opened Config
  import opened Outcome
  import opened Address
  import opened MemorySet
  import opened TaskControl

  function StatusesOf(tasks: seq<TaskControlBlock>): seq<TaskStatus> {
    seq(|tasks|, i requires 0 <= i < |tasks| => tasks[i].status)
  }

  /** `(lo..hi).find(is_ready)`: the first Ready index in `[lo, hi)`. */
  function FindReady(statuses: seq<TaskStatus>, lo: nat, hi: nat): (r: Option<nat>)
    requires hi <= |statuses|
    ensures r.Some? ==> lo <= r.value < hi && statuses[r.value] == Ready
    ensures r.Some? ==> forall j :: lo <= j < r.value ==> statuses[j] != Ready
    ensures r.None? ==> forall j :: lo <= j < hi ==> statuses[j] != Ready
    decreases hi - lo
  {
    if lo >= hi then None
    else if statuses[lo] == Ready then Some(lo)
    else FindReady(statuses, lo + 1, hi)
  }

  /**
   * `next_ready_task`: the first Ready task strictly after `current`, and
   * failing that the first Ready task in `0..=current`.
   */
  function NextReady(statuses: seq<TaskStatus>, current: nat): (r: Option<nat>)
    requires current < |statuses|
    ensures r.None? <==> forall j :: 0 <= j < |statuses| ==> statuses[j] != Ready
    ensures r.Some? ==> r.value < |statuses| && statuses[r.value] == Ready
    ensures (exists j :: current < j < |statuses| && statuses[j] == Ready) ==>
              r.Some? && current < r.value && forall j :: current < j < r.value ==> statuses[j] != Ready
    ensures r.Some? && r.value <= current ==>
              (forall j :: current < j < |statuses| ==> statuses[j] != Ready) &&
              (forall j :: 0 <= j < r.value ==> statuses[j] != Ready)
  {
    match FindReady(statuses, current + 1, |statuses|)
    case Some(next) => Some(next)
    case None => FindReady(statuses, 0, current + 1)
  }

  /**
   * How many tasks a round-robin scan starting after `current` passes before
   * it reaches `j`; `current` itself is reached last.
   */
  function CyclicDistance(n: nat, current: nat, j: nat): nat
    requires current < n && j < n
  {
    if j > current then j - current - 1 else j + n - current - 1
  }

  /**
   * An independent description of the round-robin rule: the chosen task is
   * the unique Ready task nearest after `current` in cyclic order.
   */
  lemma NextReadyIsCyclicallyNearest(statuses: seq<TaskStatus>, current: nat, j: nat)
    requires current < |statuses| && j < |statuses| && statuses[j] == Ready
    ensures NextReady(statuses, current).Some?
    ensures var next := NextReady(statuses, current).value;
            CyclicDistance(|statuses|, current, next) <= CyclicDistance(|statuses|, current, j) &&
            (CyclicDistance(|statuses|, current, next) == CyclicDistance(|statuses|, current, j) ==> next == j)
  {
  }

  /** With `[Ready, Exited, Ready]` and task 0 current, the scan skips the exited task and picks 2. */
  lemma RoundRobinSkipsExited()
    ensures NextReady([Ready, Exited, Ready], 0) == Some(2)
    ensures NextReady([Ready, Exited, Ready], 2) == Some(0)
    ensures NextReady([Exited, Exited, Exited], 1) == None
  {
  }

  /**
   * If the current task is the only Ready one, the wrap-around scan returns
   * it: a suspended task that is alone is rescheduled.
   */
  lemma {:induction false} AloneIsRescheduled(statuses: seq<TaskStatus>, current: nat)
    requires current < |statuses| && statuses[current] == Ready
    requires forall j :: 0 <= j < |statuses| && j != current ==> statuses[j] != Ready
    ensures NextReady(statuses, current) == Some(current)
  {
    var r := NextReady(statuses, current);
    assert r.Some? && statuses[r.value] == Ready;
  }

  /** If another task is Ready, the scan never returns the current one. */
  lemma {:induction false} OtherReadyIsPreferred(statuses: seq<TaskStatus>, current: nat, j: nat)
    requires current < |statuses| && j < |statuses| && j != current && statuses[j] == Ready
    ensures NextReady(statuses, current) != Some(current)
  {
    NextReadyIsCyclicallyNearest(statuses, current, j);
  }

  /** Statuses with the one at `i` replaced by `s` (what `mark_current` writes). */
  function WithStatus(tasks: seq<TaskControlBlock>, i: nat, s: TaskStatus): seq<TaskControlBlock>
    requires i < |tasks|
  {
    tasks[i := tasks[i].(status := s)]
  }

  /** The update `run_next_task` makes to the task it switches to. */
  function Started(t: TaskControlBlock, now: nat): TaskControlBlock {
    t.(status := Running, startTime := if t.startTime == 0 then now else t.startTime)
  }

  /**
   * The state change and outcome of `run_next_task` on `(tasks, current)`:
   * halt when nothing is Ready, otherwise make the chosen task Running and
   * current, stamping its start time only if it was still 0.
   */
  ghost predicate RunNextEffect(tasks: seq<TaskControlBlock>, current: nat,
                                tasks': seq<TaskControlBlock>, current': nat, now: nat, step: Step)
    requires current < |tasks|
  {
    match NextReady(StatusesOf(tasks), current)
    case None => step == Halt(AllApplicationsCompleted) && tasks' == tasks && current' == current
    case Some(next) =>
      && step == Switch(Some(current), next)
      && current' == next
      && tasks' == tasks[next := Started(tasks[next], now)]
  }

  /** `incr_syscall_times`' `+= 1` on a `u32` counter, which wraps in a release build. */
  function IncrU32(c: nat): (r: nat)
    requires c < U32_MODULUS
    ensures r < U32_MODULUS
    ensures c + 1 < U32_MODULUS ==> r == c + 1
    ensures c + 1 == U32_MODULUS ==> r == 0
  {
    (c + 1) % U32_MODULUS
  }

  /** Each address space has a page-table root frame of its own. */
  predicate RootsDistinct(tasks: seq<TaskControlBlock>) {
    forall i, j :: 0 <= i < j < |tasks| ==> tasks[i].memSet.rootPpn != tasks[j].memSet.rootPpn
  }

  /**
   * What `start_time` reads after `run_next_task` switched into a task: the
   * clock reading of that task's first scheduling, which is `now` if it had
   * never run and its earlier stamp otherwise.
   */
  lemma StartTimeAfterSwitch(tasks: seq<TaskControlBlock>, current: nat,
                             tasks': seq<TaskControlBlock>, current': nat, now: nat, step: Step)
    requires current < |tasks| && RunNextEffect(tasks, current, tasks', current', now, step)
    requires step.Switch?
    ensures current' < |tasks'| == |tasks|
    ensures tasks[current'].startTime == 0 ==> tasks'[current'].startTime == now
    ensures tasks[current'].startTime != 0 ==> tasks'[current'].startTime == tasks[current'].startTime
  {
  }

  class TaskManager {
    /** `num_app`: the number of tasks, fixed at boot. */
    const numApp: nat
    var tasks: seq<TaskControlBlock>
    /** `current_task`. */
    var current: nat

    ghost predicate Valid()
      reads this
    {
      && |tasks| == numApp
      && (if numApp == 0 then current == 0 else current < numApp)
      && (forall i :: 0 <= i < |tasks| ==> TcbValid(tasks[i]))
      && RootsDistinct(tasks)
    }

    /** The areas of the current task's address space. */
    function CurrentAreas(): seq<MapArea>
      reads this
      requires current < |tasks|
    {
      tasks[current].memSet.areas
    }

    /** The lazily built `TASK_MANAGER`: one task per application image, task 0 current. */
    constructor (apps: seq<AppImage>)
      requires forall i :: 0 <= i < |apps| ==> Loadable(apps[i]) && MemorySetValid(apps[i].memSet)
      requires forall i, j :: 0 <= i < j < |apps| ==> apps[i].memSet.rootPpn != apps[j].memSet.rootPpn
      ensures Valid()
      ensures numApp == |apps| && current == 0
      ensures forall i :: 0 <= i < |apps| ==> tasks[i] == New(apps[i])
    {
      numApp := |apps|;
      var built: seq<TaskControlBlock> := [];
      for i := 0 to |apps|
        invariant |built| == i
        invariant forall k :: 0 <= k < i ==> built[k] == New(apps[k])
        invariant forall k :: 0 <= k < i ==> TcbValid(built[k])
      {
        built := built + [New(apps[i])];
      }
      tasks := built;
      current := 0;
    }

    /** `mark_current`: only the current task's status changes. */
    method MarkCurrent(status: TaskStatus)
      requires Valid() && numApp > 0
      modifies this
      ensures Valid()
      ensures current == old(current)
      ensures tasks == WithStatus(old(tasks), current, status)
    {
      tasks := tasks[current := tasks[current].(status := status)];
    }

    /**
     * `run_next_task`, up to the `__switch` it ends with. A Ready task is
     * never Exited, so an Exited task stays Exited.
     */
    method RunNextTask(now: nat) returns (step: Step)
      requires Valid() && numApp > 0
      modifies this
      ensures Valid()
      ensures RunNextEffect(old(tasks), old(current), tasks, current, now, step)
      ensures forall i :: 0 <= i < |tasks| && old(tasks)[i].status == Exited ==> tasks[i] == old(tasks)[i]
      ensures step.Switch? ==>
                StartTime() == if old(tasks)[current].startTime == 0 then now else old(tasks)[current].startTime
    {
      var next := NextReady(StatusesOf(tasks), current);
      if next.Some? {
        var n := next.value;
        var t := tasks[n];
        if t.startTime == 0 {
          t := t.(startTime := now);
        }
        t := t.(status := Running);
        step := Switch(Some(current), n);
        tasks := tasks[n := t];
        current := n;
      } else {
        step := Halt(AllApplicationsCompleted);
      }
    }

    /**
     * `run_first_task`: task 0 becomes Running with its start time stamped
     * unconditionally; `current_task` is left as it is (0 at boot). With no
     * task at all the indexing of task 0 panics.
     */
    method RunFirstTask(now: nat) returns (step: Step)
      requires Valid()
      modifies this
      ensures Valid()
      ensures current == old(current)
      ensures numApp == 0 ==> step == Halt(NoTaskToStart) && tasks == old(tasks)
      ensures numApp > 0 ==> step == Switch(None, 0) &&
                             tasks == old(tasks)[0 := old(tasks)[0].(status := Running, startTime := now)]
      ensures numApp > 0 && current == 0 ==> StartTime() == now
    {
      if numApp == 0 {
        step := Halt(NoTaskToStart);
        return;
      }
      tasks := tasks[0 := tasks[0].(status := Running, startTime := now)];
      step := Switch(None, 0);
    }

    /**
     * `suspend_current_and_run_next`: the current task becomes Ready and
     * the scan then always finds a task, so this never halts; when no other
     * task is Ready the suspended task runs again.
     */
    method SuspendCurrentAndRunNext(now: nat) returns (step: Step)
      requires Valid() && numApp > 0
      modifies this
      ensures Valid()
      ensures RunNextEffect(WithStatus(old(tasks), old(current), Ready), old(current), tasks, current, now, step)
      ensures step.Switch? && step.from == Some(old(current))
      ensures (forall j :: 0 <= j < |tasks| && j != old(current) ==> old(tasks)[j].status != Ready) ==>
                step.to == old(current)
    {
      ghost var before := tasks;
      ghost var cur := current;
      MarkCurrent(Ready);
      assert StatusesOf(tasks)[cur] == Ready;
      if forall j :: 0 <= j < |tasks| && j != cur ==> before[j].status != Ready {
        AloneIsRescheduled(StatusesOf(tasks), cur);
      }
      step := RunNextTask(now);
    }

    /**
     * `exit_current_and_run_next`: the current task becomes Exited and is
     * never chosen again; the kernel halts when no task is left Ready.
     */
    method ExitCurrentAndRunNext(now: nat) returns (step: Step)
      requires Valid() && numApp > 0
      modifies this
      ensures Valid()
      ensures RunNextEffect(WithStatus(old(tasks), old(current), Exited), old(current), tasks, current, now, step)
      ensures tasks[old(current)].status == Exited
      ensures step.Switch? ==> step.to != old(current)
      ensures step.Halt? <==> forall j :: 0 <= j < |tasks| && j != old(current) ==> old(tasks)[j].status != Ready
    {
      ghost var before := tasks;
      ghost var cur := current;
      MarkCurrent(Exited);
      ghost var marked := StatusesOf(tasks);
      if forall j :: 0 <= j < |before| && j != cur ==> before[j].status != Ready {
        assert forall j :: 0 <= j < |marked| ==> marked[j] != Ready;
      } else {
        var j :| 0 <= j < |before| && j != cur && before[j].status == Ready;
        assert marked[j] == Ready;
      }
      step := RunNextTask(now);
    }

    /**
     * `current_trap_ctx`: where the current task's trap context lives, the
     * frame its own page table maps the trap-context page to.
     */
    function CurrentTrapCtx(): (loc: Loc)
      reads this
      requires Valid() && numApp > 0
      ensures Translate(tasks[current].memSet.pageTable, TRAP_CONTEXT) == Some(loc)
    {
      TrapCtxLoc(tasks[current])
    }

    /**
     * `current_user_satp`: a token naming the current task's page-table root
     * and no other task's.
     */
    function CurrentUserSatp(): (satp: nat)
      reads this
      requires Valid() && numApp > 0
      ensures RootPpnOf(satp) == tasks[current].memSet.rootPpn
      ensures forall i :: 0 <= i < |tasks| && tasks[i].memSet.rootPpn == RootPpnOf(satp) ==> i == current
    {
      UserSatp(tasks[current])
    }

    /** `set_syscall_times`: copies the current task's counters into `times`. */
    method SetSyscallTimes(times: array<nat>)
      requires Valid() && numApp > 0
      requires times.Length == MAX_SYSCALL_NUM
      modifies times
      ensures times[..] == tasks[current].syscallCount
    {
      var counts := tasks[current].syscallCount;
      forall k | 0 <= k < times.Length {
        times[k] := counts[k];
      }
    }

    /**
     * `incr_syscall_times`: exactly the current task's counter for
     * `syscallId` goes up by one (wrapping as a `u32`).
     */
    method IncrSyscallTimes(syscallId: nat)
      requires Valid() && numApp > 0
      requires syscallId < MAX_SYSCALL_NUM
      modifies this
      ensures Valid()
      ensures current == old(current)
      ensures var t := old(tasks)[current];
              tasks == old(tasks)[current := t.(syscallCount := t.syscallCount[syscallId := IncrU32(t.syscallCount[syscallId])])]
    {
      var t := tasks[current];
      var counts := t.syscallCount;
      counts := counts[syscallId := IncrU32(counts[syscallId])];
      tasks := tasks[current := t.(syscallCount := counts)];
    }

    /** `start_time`: when the current task was first scheduled (0 if never). */
    function StartTime(): nat
      reads this
      requires Valid() && numApp > 0
    {
      tasks[current].startTime
    }

    /**
     * `map_range`: refuse when any area of the current task intersects the
     * pages of `[start, start + len)`; otherwise append one area covering
     * exactly those pages. The areas stay pairwise disjoint.
     */
    method MapRange(start: nat, len: nat, perm: Perm) returns (ok: bool)
      requires Valid() && numApp > 0
      modifies this
      ensures Valid()
      ensures current == old(current)
      ensures ok <==> !AnyOverlap(old(CurrentAreas()), VpnRangeOf(start, len))
      ensures var t := old(tasks)[current];
              tasks == old(tasks)[current := t.(memSet := t.memSet.(areas := Mapped(t.memSet.areas, VpnRangeOf(start, len), perm)))]
    {
      var range := VpnRangeOf(start, len);
      var t := tasks[current];
      var areas := t.memSet.areas;
      if exists i :: 0 <= i < |areas| && !IsEmpty(Intersection(areas[i].vpnRange, range)) {
        return false;
      }
      areas := areas + [MapArea(range, perm)];
      tasks := tasks[current := t.(memSet := t.memSet.(areas := areas))];
      ok := true;
    }

    /**
     * `unmap_range`: drop the current task's areas that lie wholly inside
     * the pages of `[start, start + len)` and report whether the pages
     * dropped add up to the whole request.
     */
    method UnmapRange(start: nat, len: nat) returns (ok: bool)
      requires Valid() && numApp > 0
      modifies this
      ensures Valid()
      ensures current == old(current)
      ensures ok <==> FreedPages(old(CurrentAreas()), VpnRangeOf(start, len)) == Len(VpnRangeOf(start, len))
      ensures PartlyOverlapped(old(CurrentAreas()), VpnRangeOf(start, len)) ==> !ok
      ensures var t := old(tasks)[current];
              tasks == old(tasks)[current := t.(memSet := t.memSet.(areas := Retained(t.memSet.areas, VpnRangeOf(start, len))))]
    {
      var range := VpnRangeOf(start, len);
      var t := tasks[current];
      var kept, unmappedCount := RetainUncontained(t.memSet.areas, range);
      RetainedKeepsInvariant(t.memSet.areas, range);
      if PartlyOverlapped(t.memSet.areas, range) {
        PartialOverlapFails(t.memSet.areas, range);
      }
      tasks := tasks[current := t.(memSet := t.memSet.(areas := kept))];
      ok := unmappedCount == range.end - range.start;
    }
  }
}
