/** Whole runs of the scheduler, from boot, as a client of the task manager sees them. */
module Scenarios {
  import opened Outcome
  import opened TaskControl
  import opened Task
  import opened SyscallProcess

  /**
   * One application that yields once and then exits: the yield switches
   * back into the same task, and the exit ends the run with the kernel's
   * "All application completed!" halt.
   */
  method OneAppYieldThenExit(app: AppImage, t0: nat, t1: nat, t2: nat)
    returns (first: Step, yielded: Step, exited: Step)
    requires Loadable(app) && MemorySetValid(app.memSet)
    ensures first == Switch(None, 0)
    ensures yielded == Switch(Some(0), 0)
    ensures exited == Halt(AllApplicationsCompleted)
  {
    var tm := new TaskManager([app]);
    first := tm.RunFirstTask(t0);
    var ret;
    yielded, ret := SysYield(tm, t1);
    exited := SysExit(tm, 0, t2);
  }

  /** Two applications: each yield passes the processor to the other one. */
  method TwoAppsAlternate(a: AppImage, b: AppImage, t0: nat, t1: nat, t2: nat)
    returns (first: Step, y1: Step, y2: Step, exited: Step)
    requires Loadable(a) && MemorySetValid(a.memSet)
    requires Loadable(b) && MemorySetValid(b.memSet)
    requires a.memSet.rootPpn != b.memSet.rootPpn
    ensures first == Switch(None, 0)
    ensures y1 == Switch(Some(0), 1)
    ensures y2 == Switch(Some(1), 0)
    ensures exited == Switch(Some(0), 1)
  {
    var tm := new TaskManager([a, b]);
    first := tm.RunFirstTask(t0);
    assert StatusesOf(tm.tasks) == [Running, Ready];
    assert NextReady([Ready, Ready], 0) == Some(1);
    var ret;
    y1, ret := SysYield(tm, t1);
    assert NextReady([Ready, Ready], 1) == Some(0);
    y2, ret := SysYield(tm, t2);
    assert NextReady([Exited, Ready], 0) == Some(1);
    exited := SysExit(tm, 0, t2);
  }

  /** With no application at all, starting the first task halts the kernel. */
  method NoApps(t0: nat) returns (first: Step)
    ensures first == Halt(NoTaskToStart)
  {
    var tm := new TaskManager([]);
    first := tm.RunFirstTask(t0);
  }
}
