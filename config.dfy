/** Configuration constants of the kernel (the values of config.rs and timer.rs). */
module Config {
  /** Bytes in one page and in one physical frame. */
  const PAGE_SIZE: nat := 0x1000
  /** Number of syscall counters kept per task. */
  const MAX_SYSCALL_NUM: nat := 500
  const MICRO_PER_SEC: nat := 1_000_000
  /** One more than the largest `usize` (64-bit machine words). */
  const USIZE_MODULUS: nat := 0x1_0000_0000_0000_0000
  /** A signed machine word (`isize`), the type of a syscall result. */
  type Isize = v: int | -0x8000_0000_0000_0000 <= v < 0x8000_0000_0000_0000
  /** One more than the largest `u32` (width of a syscall counter). */
  const U32_MODULUS: nat := 0x1_0000_0000
  /** The shared trampoline page sits in the highest page of every address space. */
  const TRAMPOLINE: nat := 0x1_0000_0000_0000_0000 - 0x1000
  /** Each task's private trap-context page sits immediately below the trampoline. */
  const TRAP_CONTEXT: nat := TRAMPOLINE - PAGE_SIZE
  /**
   * The `satp` layout for Sv39 in the RISC-V privileged architecture: mode 8
   * in bits 60 to 63, the root page-table frame in bits 0 to 43.
   */
  const SATP_MODE_SV39: nat := 0x8000_0000_0000_0000
  const SATP_PPN_MODULUS: nat := 0x1000_0000_0000
}
