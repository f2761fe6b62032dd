/** Option and Result, and the ways a kernel step can end. */
module Outcome {
  datatype Option<T> = None | Some(value: T)

  datatype Result<T, E> = Ok(value: T) | Err(error: E)

  /** The conditions that halt the whole kernel (a `panic!`). */
  datatype Fatal =
    | AllApplicationsCompleted   // run_next_task found no Ready task
    | NoTaskToStart              // run_first_task indexed an empty task list
    | UnmappedUserPointer        // a syscall's user pointer did not translate (`unwrap` on None)
    | UnsupportedTrap            // trap_handler met a cause it does not handle
    | KernelTrap                 // a trap was taken while running in the kernel

  /**
   * What a scheduling or trap step hands to the machine: return to the same
   * user task, switch from one task context into another (`__switch`; `from`
   * is None for the throwaway context of the very first switch), or halt.
   */
  datatype Step = Resume | Switch(from: Option<nat>, to: nat) | Halt(why: Fatal)
}
