/** The `mmap` (222) and `munmap` (215) syscalls. */
module SyscallMemory {
  import opened Config
  import opened MemorySet
  import opened Task

  /**
   * `sys_mmap`'s argument check: `start` is page aligned, no bit of `port`
   * is set outside the low three, and at least one of them is set.
   */
  predicate MmapArgsValid(start: nat, port: bv64) {
    start % PAGE_SIZE == 0 && port & !7 == 0 && port & 7 != 0
  }

  /** The permission checks on `port` accept exactly the values 1 to 7. */
  lemma ValidPortsAreOneToSeven(port: bv64)
    ensures (port & !7 == 0 && port & 7 != 0) <==> 1 <= port <= 7
  {
  }

  /**
   * The permission `sys_mmap` passes on: always user accessible, and R, W,
   * X from bits 0, 1 and 2 of `port`.
   */
  function MapPermOf(port: bv64): (p: Perm)
    ensures p.u
    ensures p.r <==> port & 1 != 0
    ensures p.w <==> port & 2 != 0
    ensures p.x <==> port & 4 != 0
  {
    var p := Perm(false, false, false, true);
    var p := if port & 0x1 != 0 then p.(r := true) else p;
    var p := if port & 0x2 != 0 then p.(w := true) else p;
    if port & 0x4 != 0 then p.(x := true) else p
  }

  /** The `port` value that asks for the R, W, X bits of `p`. */
  function PortOf(p: Perm): bv64 {
    (if p.r then 1 else 0) | (if p.w then 2 else 0) | (if p.x then 4 else 0)
  }

  /** Decoding is a bijection between the accepted ports and the user-accessible permissions granting some access. */
  lemma MapPermRoundTrip(port: bv64, p: Perm)
    ensures 1 <= port <= 7 ==> PortOf(MapPermOf(port)) == port
    ensures p.u && (p.r || p.w || p.x) ==> 1 <= PortOf(p) <= 7 && MapPermOf(PortOf(p)) == p
  {
  }

  /** Every accepted port grants at least one access. */
  lemma ValidPortGrantsAccess(start: nat, port: bv64)
    requires MmapArgsValid(start, port)
    ensures MapPermOf(port).r || MapPermOf(port).w || MapPermOf(port).x
  {
  }

  /** The code reads bit 0 as R and bit 2 as X (the reverse of the order the doc-comment lists). */
  lemma PortBitOrder()
    ensures MapPermOf(1) == Perm(true, false, false, true)
    ensures MapPermOf(4) == Perm(false, false, true, true)
    ensures MapPermOf(3) == Perm(true, true, false, true)
  {
  }

  /**
   * `sys_mmap`: -1 on bad arguments with nothing changed; otherwise the
   * result of `map_range` with the decoded permission, as 0 or -1.
   */
  method SysMmap(tm: TaskManager, start: nat, len: nat, port: bv64) returns (ret: int)
    requires tm.Valid() && tm.numApp > 0
    modifies tm
    ensures tm.Valid() && tm.current == old(tm.current)
    ensures ret == 0 || ret == -1
    ensures !MmapArgsValid(start, port) ==> ret == -1 && tm.tasks == old(tm.tasks)
    ensures MmapArgsValid(start, port) ==>
              (ret == 0 <==> !AnyOverlap(old(tm.CurrentAreas()), VpnRangeOf(start, len)))
    ensures MmapArgsValid(start, port) ==>
              var t := old(tm.tasks)[old(tm.current)];
              tm.tasks == old(tm.tasks)[old(tm.current) :=
                            t.(memSet := t.memSet.(areas := Mapped(t.memSet.areas, VpnRangeOf(start, len), MapPermOf(port))))]
    ensures ret == -1 ==> tm.tasks == old(tm.tasks)
    ensures ret == 0 ==> tm.CurrentAreas() == old(tm.CurrentAreas()) + [MapArea(VpnRangeOf(start, len), MapPermOf(port))]
  {
    if start % PAGE_SIZE != 0 || port & !0x7 != 0 || port & 0x7 == 0 {
      return -1;
    }
    var ok := tm.MapRange(start, len, MapPermOf(port));
    if ok {
      ret := 0;
    } else {
      ret := -1;
    }
  }

  /**
   * `sys_munmap`: -1 for an unaligned `start` with nothing changed;
   * otherwise the result of `unmap_range`, as 0 or -1.
   */
  method SysMunmap(tm: TaskManager, start: nat, len: nat) returns (ret: int)
    requires tm.Valid() && tm.numApp > 0
    modifies tm
    ensures tm.Valid() && tm.current == old(tm.current)
    ensures ret == 0 || ret == -1
    ensures start % PAGE_SIZE != 0 ==> ret == -1 && tm.tasks == old(tm.tasks)
    ensures start % PAGE_SIZE == 0 ==>
              (ret == 0 <==> FreedPages(old(tm.CurrentAreas()), VpnRangeOf(start, len)) == Len(VpnRangeOf(start, len)))
    ensures start % PAGE_SIZE == 0 ==>
              var t := old(tm.tasks)[old(tm.current)];
              tm.tasks == old(tm.tasks)[old(tm.current) :=
                            t.(memSet := t.memSet.(areas := Retained(t.memSet.areas, VpnRangeOf(start, len))))]
    ensures PartlyOverlapped(old(tm.CurrentAreas()), VpnRangeOf(start, len)) ==> ret == -1
  {
    if start % PAGE_SIZE != 0 {
      return -1;
    }
    var ok := tm.UnmapRange(start, len);
    if ok {
      ret := 0;
    } else {
      ret := -1;
    }
  }
}
