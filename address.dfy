/** Virtual addresses, page numbers and user-pointer translation. */
module Address {
  import opened Config
  import opened Outcome

  /** The virtual page holding address `va` (`VirtAddr::floor`). */
  function Floor(va: nat): (vpn: nat)
    ensures vpn * PAGE_SIZE <= va < (vpn + 1) * PAGE_SIZE
  {
    va / PAGE_SIZE
  }

  /** The first virtual page boundary at or above `va` (`VirtAddr::ceil`). */
  function Ceil(va: nat): (vpn: nat)
    ensures va <= vpn * PAGE_SIZE < va + PAGE_SIZE
  {
    (va + PAGE_SIZE - 1) / PAGE_SIZE
  }

  /** Offset of `va` inside its page (`VirtAddr::page_offset`). */
  function PageOffset(va: nat): (off: nat)
    ensures off < PAGE_SIZE
    ensures Floor(va) * PAGE_SIZE + off == va
  {
    va % PAGE_SIZE
  }

  /** A byte location inside a physical frame. */
  datatype Loc = Loc(ppn: nat, offset: nat)

  /**
   * `page_table.translate(va.floor()).unwrap().ppn().as_mut_at(va.page_offset())`:
   * the physical location the kernel uses for the user pointer `va`, given the
   * user's page table as a partial map from virtual to physical page numbers.
   * None is the case where the `unwrap` panics.
   */
  function Translate(pageTable: map<nat, nat>, va: nat): (r: Option<Loc>)
    ensures r.Some? <==> Floor(va) in pageTable
    ensures r.Some? ==> r.value.ppn == pageTable[Floor(va)]
    ensures r.Some? ==> r.value.offset < PAGE_SIZE && Floor(va) * PAGE_SIZE + r.value.offset == va
  {
    var vpn := Floor(va);
    if vpn in pageTable then Some(Loc(pageTable[vpn], PageOffset(va))) else None
  }
}
