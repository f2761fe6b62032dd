/** The decision `trap_handler` takes for each trap cause, and the kernel-trap handler. */
module Trap {
  import opened Config
  import opened Outcome
  import opened TaskControl
  import opened Task

  /** The exception codes `scause` distinguishes. */
  datatype Exception =
    | InstructionMisaligned | InstructionFault | IllegalInstruction | Breakpoint
    | LoadFault | StoreMisaligned | StoreFault | UserEnvCall
    | InstructionPageFault | LoadPageFault | StorePageFault | UnknownException

  /** The interrupt codes `scause` distinguishes. */
  datatype Interrupt =
    | UserSoft | SupervisorSoft | UserTimer | SupervisorTimer
    | UserExternal | SupervisorExternal | UnknownInterrupt

  /** `scause.cause()`. */
  datatype Cause = ExceptionCause(e: Exception) | InterruptCause(i: Interrupt)

  /** The four arms of `trap_handler`'s match. */
  datatype Action = SyscallCall | KillTask | Preempt | Unsupported

  function Classify(cause: Cause): (a: Action)
    ensures a == SyscallCall <==> cause == ExceptionCause(UserEnvCall)
    ensures a == KillTask <==> cause in {ExceptionCause(StoreFault), ExceptionCause(StorePageFault),
                                         ExceptionCause(LoadPageFault), ExceptionCause(IllegalInstruction)}
    ensures a == Preempt <==> cause == InterruptCause(SupervisorTimer)
  {
    match cause
    case ExceptionCause(UserEnvCall) => SyscallCall
    case ExceptionCause(StoreFault) => KillTask
    case ExceptionCause(StorePageFault) => KillTask
    case ExceptionCause(LoadPageFault) => KillTask
    case ExceptionCause(IllegalInstruction) => KillTask
    case InterruptCause(SupervisorTimer) => Preempt
    case _ => Unsupported
  }

  /** Register index of the syscall id (`a7`). */
  const SYSCALL_ID_REG: nat := 17
  /** Register index of the first argument and of the return value (`a0`). */
  const RETURN_REG: nat := 10

  /** `TrapContext`: the saved general registers and the saved program counter. */
  class TrapContext {
    const x: array<int>
    var sepc: int

    constructor (regs: seq<int>, sepc: int)
      requires |regs| == 32
      ensures x.Length == 32 && x[..] == regs && this.sepc == sepc && fresh(x)
    {
      x := new int[32](i requires 0 <= i < 32 reads {} => regs[i]);
      this.sepc := sepc;
    }
  }

  /** `isize as usize`: the two's-complement bit pattern of a syscall result. */
  function AsUsize(v: Isize): (u: nat)
    ensures u < USIZE_MODULUS
    ensures v >= 0 ==> u == v
    ensures v < 0 ==> u == USIZE_MODULUS + v
  {
    v % USIZE_MODULUS
  }

  /**
   * `trap_handler`'s case analysis. The trap context it works on is
   * `current_trap_ctx()`: the one held in `frames`, the trap-context frames
   * of physical memory by page number, at the current task's trap-context
   * frame. `syscall` stands for the syscall dispatcher, seen as a function of
   * the id and three arguments; `now` is the clock read when a task is
   * scheduled.
   */
  method TrapHandler(tm: TaskManager, frames: map<nat, TrapContext>, cause: Cause,
                     syscall: (int, seq<int>) -> Isize, now: nat) returns (step: Step)
    requires tm.Valid() && tm.numApp > 0
    requires tm.CurrentTrapCtx().ppn in frames && frames[tm.CurrentTrapCtx().ppn].x.Length == 32
    modifies tm, frames[tm.CurrentTrapCtx().ppn], frames[tm.CurrentTrapCtx().ppn].x
    ensures tm.Valid()
    ensures var ctx := frames[old(tm.CurrentTrapCtx()).ppn];
            Classify(cause) == SyscallCall ==>
              && step == Resume
              && ctx.sepc == old(ctx.sepc) + 4
              && ctx.x[..] == old(ctx.x[..])[RETURN_REG := AsUsize(syscall(old(ctx.x[SYSCALL_ID_REG]),
                                                       [old(ctx.x[10]), old(ctx.x[11]), old(ctx.x[12])]))]
              && tm.tasks == old(tm.tasks) && tm.current == old(tm.current)
    ensures var ctx := frames[old(tm.CurrentTrapCtx()).ppn];
            Classify(cause) == KillTask ==>
              && RunNextEffect(WithStatus(old(tm.tasks), old(tm.current), Exited), old(tm.current),
                               tm.tasks, tm.current, now, step)
              && tm.tasks[old(tm.current)].status == Exited
              && ctx.sepc == old(ctx.sepc) && ctx.x[..] == old(ctx.x[..])
    ensures var ctx := frames[old(tm.CurrentTrapCtx()).ppn];
            Classify(cause) == Preempt ==>
              && RunNextEffect(WithStatus(old(tm.tasks), old(tm.current), Ready), old(tm.current),
                               tm.tasks, tm.current, now, step)
              && step.Switch?
              && ctx.sepc == old(ctx.sepc) && ctx.x[..] == old(ctx.x[..])
    ensures var ctx := frames[old(tm.CurrentTrapCtx()).ppn];
            Classify(cause) == Unsupported ==>
              && step == Halt(UnsupportedTrap)
              && tm.tasks == old(tm.tasks) && tm.current == old(tm.current)
              && ctx.sepc == old(ctx.sepc) && ctx.x[..] == old(ctx.x[..])
  {
    var ctx := frames[tm.CurrentTrapCtx().ppn];
    match Classify(cause)
    case SyscallCall =>
      ctx.sepc := ctx.sepc + 4;
      var ret := syscall(ctx.x[SYSCALL_ID_REG], [ctx.x[10], ctx.x[11], ctx.x[12]]);
      ctx.x[RETURN_REG] := AsUsize(ret);
      step := Resume;
    case KillTask =>
      step := tm.ExitCurrentAndRunNext(now);
    case Preempt =>
      step := tm.SuspendCurrentAndRunNext(now);
    case Unsupported =>
      step := Halt(UnsupportedTrap);
  }

  /**
   * `trap_from_kernel`: a trap taken in the kernel halts it, whatever the
   * cause, before anything of the tasks or of a trap context changes.
   */
  method TrapFromKernel(tm: TaskManager, ctx: TrapContext, cause: Cause) returns (step: Step)
    ensures step == Halt(KernelTrap)
    ensures unchanged(tm) && unchanged(ctx) && unchanged(ctx.x)
  {
    step := Halt(KernelTrap);
  }
}
