/**
 * The part of a task's address space that `map_range` and `unmap_range`
 * work on: the ordered list of mapped areas, each a half-open range of
 * virtual page numbers with one permission set.
 */
module MemorySet {
  import opened Config
  import opened Address

  /** Half-open range `[start, end)` of virtual page numbers. */
  datatype VpnRange = VpnRange(start: nat, end: nat)

  /** Permission bits of a mapped area (`MapPermission`: R, W, X, U). */
  datatype Perm = Perm(r: bool, w: bool, x: bool, u: bool)

  datatype MapArea = MapArea(vpnRange: VpnRange, perm: Perm)

  /**
   * An address space: its areas in insertion order, the page table seen as
   * a partial map from virtual to physical page numbers, and the physical
   * frame holding the page table's root.
   */
  datatype MemorySet = MemorySet(areas: seq<MapArea>, pageTable: map<nat, nat>, rootPpn: nat)

  /** `PageTable::from_satp`: the root frame a `satp` token names. */
  function RootPpnOf(satp: nat): nat {
    satp % SATP_PPN_MODULUS
  }

  predicate WellFormed(r: VpnRange) {
    r.start <= r.end
  }

  /** Number of pages in a range (`end.0 - start.0`). */
  function Len(r: VpnRange): int {
    r.end - r.start
  }

  /** The virtual page numbers a range covers. */
  ghost function Pages(r: VpnRange): (ps: set<int>)
    ensures forall v :: v in ps <==> r.start <= v < r.end
    decreases Len(r)
  {
    if r.start >= r.end then {} else Pages(VpnRange(r.start, r.end - 1)) + {r.end - 1}
  }

  /**
   * `VirtAddr(start).floor()..VirtAddr(start + len).ceil()`: the pages that
   * the `len` bytes from `start` touch, and no page more.
   */
  function VpnRangeOf(start: nat, len: nat): (r: VpnRange)
    ensures WellFormed(r)
    ensures r.start * PAGE_SIZE <= start && start + len <= r.end * PAGE_SIZE
    ensures start < (r.start + 1) * PAGE_SIZE && r.end * PAGE_SIZE < start + len + PAGE_SIZE
  {
    VpnRange(Floor(start), Ceil(start + len))
  }

  /** `MapArea::intersection`: the overlap of two ranges, empty when `start >= end`. */
  function Intersection(a: VpnRange, b: VpnRange): VpnRange {
    VpnRange(if a.start < b.start then b.start else a.start,
             if a.end < b.end then a.end else b.end)
  }

  /** `Range::is_empty`. */
  predicate IsEmpty(r: VpnRange) {
    !(r.start < r.end)
  }

  predicate Overlaps(a: VpnRange, b: VpnRange) {
    !IsEmpty(Intersection(a, b))
  }

  /** `area.intersection(&vpn_range) == area.vpn_range`. */
  predicate ContainedIn(a: VpnRange, r: VpnRange) {
    Intersection(a, r) == a
  }

  /** Two ranges overlap exactly when some page lies in both. */
  lemma OverlapsIffSharedPage(a: VpnRange, b: VpnRange)
    ensures Overlaps(a, b) <==> exists v :: v in Pages(a) && v in Pages(b)
  {
    var m := Intersection(a, b);
    if Overlaps(a, b) {
      assert m.start in Pages(a) && m.start in Pages(b);
    }
  }

  /** An area is contained exactly when its bounds lie inside the range, and then so do all its pages. */
  lemma ContainedInBounds(a: VpnRange, r: VpnRange)
    ensures ContainedIn(a, r) <==> r.start <= a.start && a.end <= r.end
    ensures ContainedIn(a, r) ==> Pages(a) <= Pages(r)
  {
  }

  predicate AnyOverlap(areas: seq<MapArea>, r: VpnRange) {
    exists i :: 0 <= i < |areas| && Overlaps(areas[i].vpnRange, r)
  }

  predicate AreasWellFormed(areas: seq<MapArea>) {
    forall i :: 0 <= i < |areas| ==> WellFormed(areas[i].vpnRange)
  }

  /** The memory-set invariant: no two areas share a page. */
  predicate AreasDisjoint(areas: seq<MapArea>) {
    forall i, j :: 0 <= i < j < |areas| ==> !Overlaps(areas[i].vpnRange, areas[j].vpnRange)
  }

  /** `map_range`'s new area list: the old one, plus one area when nothing overlaps. */
  function Mapped(areas: seq<MapArea>, r: VpnRange, perm: Perm): (res: seq<MapArea>)
    ensures AnyOverlap(areas, r) ==> res == areas
    ensures !AnyOverlap(areas, r) ==> |res| == |areas| + 1 && res[..|areas|] == areas && res[|areas|] == MapArea(r, perm)
    ensures AreasDisjoint(areas) ==> AreasDisjoint(res)
    ensures AreasWellFormed(areas) && WellFormed(r) ==> AreasWellFormed(res)
  {
    if AnyOverlap(areas, r) then areas else areas + [MapArea(r, perm)]
  }

  /** The areas `unmap_range`'s `retain_mut` keeps, in their original order. */
  function Retained(areas: seq<MapArea>, r: VpnRange): seq<MapArea> {
    if areas == [] then []
    else
      var last := areas[|areas| - 1];
      Retained(areas[..|areas| - 1], r) + (if ContainedIn(last.vpnRange, r) then [] else [last])
  }

  /** The page count `unmap_range` accumulates in `unmaped_count`. */
  function FreedPages(areas: seq<MapArea>, r: VpnRange): int {
    if areas == [] then 0
    else
      var last := areas[|areas| - 1];
      FreedPages(areas[..|areas| - 1], r) + (if ContainedIn(last.vpnRange, r) then Len(last.vpnRange) else 0)
  }

  /**
   * The `retain_mut` loop of `unmap_range`: drops every area contained in
   * `r`, keeps the others in order, and sums the pages it drops.
   */
  method RetainUncontained(areas: seq<MapArea>, r: VpnRange) returns (kept: seq<MapArea>, freed: nat)
    requires AreasWellFormed(areas)
    ensures kept == Retained(areas, r)
    ensures freed == FreedPages(areas, r)
  {
    kept, freed := [], 0;
    for i := 0 to |areas|
      invariant kept == Retained(areas[..i], r)
      invariant freed == FreedPages(areas[..i], r)
    {
      var area := areas[i];
      assert areas[..i + 1][..i] == areas[..i];
      if Intersection(area.vpnRange, r) == area.vpnRange {
        freed := freed + (area.vpnRange.end - area.vpnRange.start);
      } else {
        kept := kept + [area];
      }
    }
    assert areas[..|areas|] == areas;
  }

  /** An area survives `unmap_range` exactly when it is not contained in the range. */
  lemma {:induction false} RetainedMembers(areas: seq<MapArea>, r: VpnRange, a: MapArea)
    ensures a in Retained(areas, r) <==> a in areas && !ContainedIn(a.vpnRange, r)
  {
    if areas != [] {
      var n := |areas| - 1;
      RetainedMembers(areas[..n], r, a);
      assert areas == areas[..n] + [areas[n]];
    }
  }

  /** `unmap_range` keeps the memory-set invariant. */
  lemma {:induction false} RetainedKeepsInvariant(areas: seq<MapArea>, r: VpnRange)
    requires AreasWellFormed(areas) && AreasDisjoint(areas)
    ensures AreasWellFormed(Retained(areas, r)) && AreasDisjoint(Retained(areas, r))
  {
    if areas != [] {
      var n := |areas| - 1;
      var prefix := areas[..n];
      var last := areas[n];
      RetainedKeepsInvariant(prefix, r);
      var kept := Retained(prefix, r);
      if !ContainedIn(last.vpnRange, r) {
        forall i | 0 <= i < |kept|
          ensures !Overlaps(kept[i].vpnRange, last.vpnRange)
        {
          RetainedMembers(prefix, r, kept[i]);
          var k :| 0 <= k < n && prefix[k] == kept[i];
          assert areas[k] == kept[i];
        }
      }
    }
  }

  /** The pages of the areas `unmap_range` drops. */
  ghost function RemovedPages(areas: seq<MapArea>, r: VpnRange): set<int> {
    if areas == [] then {}
    else
      var last := areas[|areas| - 1];
      RemovedPages(areas[..|areas| - 1], r) + (if ContainedIn(last.vpnRange, r) then Pages(last.vpnRange) else {})
  }

  /** Page `v` lies in some area that `unmap_range` drops. */
  ghost predicate CoveredByRemoved(areas: seq<MapArea>, r: VpnRange, v: int) {
    exists i :: 0 <= i < |areas| && ContainedIn(areas[i].vpnRange, r) && v in Pages(areas[i].vpnRange)
  }

  lemma {:induction false} RemovedPagesMembers(areas: seq<MapArea>, r: VpnRange, v: int)
    ensures v in RemovedPages(areas, r) <==> CoveredByRemoved(areas, r, v)
  {
    if areas != [] {
      var n := |areas| - 1;
      RemovedPagesMembers(areas[..n], r, v);
      if CoveredByRemoved(areas[..n], r, v) {
        var i :| 0 <= i < n && ContainedIn(areas[..n][i].vpnRange, r) && v in Pages(areas[..n][i].vpnRange);
        assert areas[i] == areas[..n][i];
      }
      if CoveredByRemoved(areas, r, v) {
        var i :| 0 <= i < |areas| && ContainedIn(areas[i].vpnRange, r) && v in Pages(areas[i].vpnRange);
        if i < n {
          assert areas[..n][i] == areas[i];
        }
      }
    }
  }

  lemma {:induction false} RemovedPagesInRange(areas: seq<MapArea>, r: VpnRange)
    ensures RemovedPages(areas, r) <= Pages(r)
  {
    if areas != [] {
      RemovedPagesInRange(areas[..|areas| - 1], r);
      ContainedInBounds(areas[|areas| - 1].vpnRange, r);
    }
  }

  /** A well-formed range has exactly `Len(r)` pages. */
  lemma {:induction false} PagesCount(r: VpnRange)
    requires WellFormed(r)
    ensures |Pages(r)| == Len(r)
    decreases Len(r)
  {
    if r.start < r.end {
      var shorter := VpnRange(r.start, r.end - 1);
      assert Pages(r) == Pages(shorter) + {r.end - 1};
      assert r.end - 1 !in Pages(shorter);
      PagesCount(shorter);
    }
  }

  /** For disjoint areas, no page dropped from the earlier areas lies in the last one. */
  lemma LastMissesRemoved(areas: seq<MapArea>, r: VpnRange)
    requires |areas| > 0 && AreasDisjoint(areas)
    ensures RemovedPages(areas[..|areas| - 1], r) * Pages(areas[|areas| - 1].vpnRange) == {}
  {
    var n := |areas| - 1;
    var prefix := areas[..n];
    var last := areas[n];
    forall v | v in RemovedPages(prefix, r)
      ensures v !in Pages(last.vpnRange)
    {
      RemovedPagesMembers(prefix, r, v);
      var i :| 0 <= i < n && ContainedIn(prefix[i].vpnRange, r) && v in Pages(prefix[i].vpnRange);
      assert prefix[i] == areas[i];
      assert !Overlaps(areas[i].vpnRange, last.vpnRange);
      OverlapsIffSharedPage(areas[i].vpnRange, last.vpnRange);
    }
  }

  /** Because the areas are disjoint, the pages freed are counted once each. */
  lemma {:induction false} RemovedPagesCount(areas: seq<MapArea>, r: VpnRange)
    requires AreasWellFormed(areas) && AreasDisjoint(areas)
    ensures |RemovedPages(areas, r)| == FreedPages(areas, r)
  {
    if areas != [] {
      var n := |areas| - 1;
      var prefix := areas[..n];
      var last := areas[n];
      RemovedPagesCount(prefix, r);
      if ContainedIn(last.vpnRange, r) {
        LastMissesRemoved(areas, r);
        PagesCount(last.vpnRange);
        assert RemovedPages(areas, r) == RemovedPages(prefix, r) + Pages(last.vpnRange);
      }
    }
  }

  lemma SubsetSize(s: set<int>, t: set<int>)
    requires s <= t
    ensures |s| <= |t|
    ensures |s| == |t| ==> s == t
  {
    assert t == s + (t - s);
    if |s| == |t| {
      assert t - s == {};
    }
  }

  /** A full count means the dropped areas cover every requested page. */
  lemma FullCountCovers(areas: seq<MapArea>, r: VpnRange)
    requires WellFormed(r) && AreasWellFormed(areas) && AreasDisjoint(areas)
    requires FreedPages(areas, r) == Len(r)
    ensures forall v :: v in Pages(r) ==> CoveredByRemoved(areas, r, v)
  {
    RemovedPagesCount(areas, r);
    RemovedPagesInRange(areas, r);
    PagesCount(r);
    SubsetSize(RemovedPages(areas, r), Pages(r));
    forall v | v in Pages(r) ensures CoveredByRemoved(areas, r, v) {
      RemovedPagesMembers(areas, r, v);
    }
  }

  /** When the dropped areas cover every requested page, the count is full. */
  lemma CoverGivesFullCount(areas: seq<MapArea>, r: VpnRange)
    requires WellFormed(r) && AreasWellFormed(areas) && AreasDisjoint(areas)
    requires forall v :: v in Pages(r) ==> CoveredByRemoved(areas, r, v)
    ensures FreedPages(areas, r) == Len(r)
  {
    RemovedPagesCount(areas, r);
    RemovedPagesInRange(areas, r);
    PagesCount(r);
    var removed := RemovedPages(areas, r);
    forall v | v in Pages(r) ensures v in removed {
      RemovedPagesMembers(areas, r, v);
    }
    assert removed == Pages(r);
  }

  /**
   * `unmap_range` reports success exactly when the areas it drops cover
   * every page of the requested range (provided the memory-set invariant
   * holds).
   */
  lemma UnmapSucceedsIffCovered(areas: seq<MapArea>, r: VpnRange)
    requires WellFormed(r) && AreasWellFormed(areas) && AreasDisjoint(areas)
    ensures FreedPages(areas, r) == Len(r) <==> forall v :: v in Pages(r) ==> CoveredByRemoved(areas, r, v)
  {
    if FreedPages(areas, r) == Len(r) {
      FullCountCovers(areas, r);
    }
    if forall v :: v in Pages(r) ==> CoveredByRemoved(areas, r, v) {
      CoverGivesFullCount(areas, r);
    }
  }

  /** Some area shares a page with `r` but also reaches outside it. */
  predicate PartlyOverlapped(areas: seq<MapArea>, r: VpnRange) {
    exists k :: 0 <= k < |areas| && Overlaps(areas[k].vpnRange, r) && !ContainedIn(areas[k].vpnRange, r)
  }

  /**
   * An unmap request that cuts through an area reports failure: that area
   * is kept, and no dropped area can hold the pages it shares with the
   * request.
   */
  lemma PartialOverlapFails(areas: seq<MapArea>, r: VpnRange)
    requires WellFormed(r) && AreasWellFormed(areas) && AreasDisjoint(areas)
    requires PartlyOverlapped(areas, r)
    ensures FreedPages(areas, r) != Len(r)
  {
    var k :| 0 <= k < |areas| && Overlaps(areas[k].vpnRange, r) && !ContainedIn(areas[k].vpnRange, r);
    var v := Intersection(areas[k].vpnRange, r).start;
    assert v in Pages(areas[k].vpnRange) && v in Pages(r);
    forall i | 0 <= i < |areas| && ContainedIn(areas[i].vpnRange, r)
      ensures v !in Pages(areas[i].vpnRange)
    {
      assert i != k;
      assert !Overlaps(areas[i].vpnRange, areas[k].vpnRange);
      OverlapsIffSharedPage(areas[i].vpnRange, areas[k].vpnRange);
    }
    assert !CoveredByRemoved(areas, r, v);
    UnmapSucceedsIffCovered(areas, r);
  }

  /** The pages freed never exceed the pages requested. */
  lemma FreedWithinRequest(areas: seq<MapArea>, r: VpnRange)
    requires WellFormed(r) && AreasWellFormed(areas) && AreasDisjoint(areas)
    ensures 0 <= FreedPages(areas, r) <= Len(r)
  {
    RemovedPagesCount(areas, r);
    RemovedPagesInRange(areas, r);
    PagesCount(r);
    SubsetSize(RemovedPages(areas, r), Pages(r));
  }
}
