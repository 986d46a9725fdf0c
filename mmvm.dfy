/** The virtual-area helpers of mm-vm.c: looking an area up by id, the
    candidate range at the break, the overlap check, area growth
    (inc_vma_limit) and the one-byte RAM/SWAP exchange. */
module MmVm {
  import opened Common

  /** PAGING_PAGE_ALIGNSZ on a non-negative size. */
  function PageAlignSz(n: nat): (r: nat)
    ensures r % PAGING_PAGESZ == 0 && n <= r < n + PAGING_PAGESZ
  {
    RoundUpToPage(n)
  }

  /** get_vma_by_num walks past the end of the list (and dereferences NULL)
      when every id is below vmaid; callers must rule that out. */
  ghost predicate VmaLookupDefined(mmap: seq<VmArea>, vmaid: int)
  {
    mmap == [] || exists k :: 0 <= k < |mmap| && mmap[k].vmId >= vmaid
  }

  /** get_vma_by_num: NULL for an empty area list, otherwise the first
      area whose id is at least vmaid. */
  function GetVmaByNum(mmap: seq<VmArea>, vmaid: int): (r: Option<nat>)
    requires VmaLookupDefined(mmap, vmaid)
    ensures r.None? <==> mmap == []
    ensures r.Some? ==> r.value < |mmap| && mmap[r.value].vmId >= vmaid
    ensures r.Some? ==> forall j :: 0 <= j < r.value ==> mmap[j].vmId < vmaid
  {
    if mmap == [] then None else Some(FirstVmaFrom(mmap, vmaid, 0))
  }

  /** The loop of get_vma_by_num, resumed at area k. */
  function FirstVmaFrom(mmap: seq<VmArea>, vmaid: int, k: nat): (r: nat)
    requires exists j :: k <= j < |mmap| && mmap[j].vmId >= vmaid
    ensures k <= r < |mmap| && mmap[r].vmId >= vmaid
    ensures forall j :: k <= j < r ==> mmap[j].vmId < vmaid
    decreases |mmap| - k
  {
    if mmap[k].vmId >= vmaid then k else FirstVmaFrom(mmap, vmaid, k + 1)
  }

  /** Half-open intersection test of validate_overlap_vm_area. */
  predicate Overlaps(rg: Region, start: int, end: int)
  {
    !(end <= rg.rgStart || start >= rg.rgEnd)
  }

  /** Some node of the free list fl intersects [start, end). */
  function AnyOverlap(fl: seq<Region>, start: int, end: int): (b: bool)
    ensures b <==> exists i :: 0 <= i < |fl| && Overlaps(fl[i], start, end)
  {
    if fl == [] then false
    else Overlaps(fl[0], start, end) || AnyOverlap(fl[1..], start, end)
  }

  /** validate_overlap_vm_area: -1 when there is no area, or when the
      candidate range meets a node of the FIRST area's free list (whatever
      vmaid is); 0 otherwise. */
  function ValidateOverlapVmArea(mmap: seq<VmArea>, vmaid: int, vmastart: int, vmaend: int): (r: int)
    ensures r == 0 || r == -1
    ensures r == -1 <==> mmap == [] || exists i :: 0 <= i < |mmap[0].freeList| && Overlaps(mmap[0].freeList[i], vmastart, vmaend)
  {
    if mmap == [] then -1
    else if AnyOverlap(mmap[0].freeList, vmastart, vmaend) then -1
    else 0
  }

  /** get_vm_area_node_at_brk: [vm_end, vm_end + alignedsz) of the area,
      or NULL when there is none.  size is not used. */
  function GetVmAreaNodeAtBrk(mmap: seq<VmArea>, vmaid: int, size: int, alignedsz: int): (r: Option<Region>)
    requires VmaLookupDefined(mmap, vmaid)
    ensures r.None? <==> mmap == []
    ensures r.Some? ==> var a := mmap[GetVmaByNum(mmap, vmaid).value];
                        r.value == Region(a.vmEnd, a.vmEnd + alignedsz)
  {
    match GetVmaByNum(mmap, vmaid)
    case None => None
    case Some(k) => Some(Region(mmap[k].vmEnd, mmap[k].vmEnd + alignedsz))
  }

  /** The area after a successful growth by incSz bytes: the break moves
      to old end + incSz, the end by the page-aligned amount, and the slack
      [sbrk, vm_end) is pushed on the head of the free list. */
  function Grow(a: VmArea, incSz: nat): VmArea
  {
    var sbrk := a.vmEnd + incSz;
    var vmEnd := a.vmEnd + PageAlignSz(incSz);
    a.(sbrk := sbrk, vmEnd := vmEnd, freeList := [Region(sbrk, vmEnd)] + a.freeList)
  }

  /** Whether inc_vma_limit gets past its checks for area index k of mmap. */
  predicate GrowthAccepted(mmap: seq<VmArea>, vmaid: int, k: nat, incSz: nat)
    requires k < |mmap|
  {
    && 0 <= vmaid < PAGING_MAX_SYMTBL_SZ
    && ValidateOverlapVmArea(mmap, vmaid, mmap[k].vmEnd, mmap[k].vmEnd + PageAlignSz(incSz)) == 0
  }

  /** inc_vma_limit.  mapOk is the outcome of vm_map_ram, whose page-table
      effect is not part of this model.  A mapping failure is reported only
      after the area has been grown. */
  method IncVmaLimit(caller: Pcb?, vmaid: int, incSz: nat, mapOk: bool) returns (ret: int)
    requires caller != null && 0 <= vmaid < PAGING_MAX_SYMTBL_SZ ==> VmaLookupDefined(caller.mm.mmap, vmaid)
    modifies if caller != null then {caller.mm} else {}
    ensures caller == null ==> ret == -1
    ensures caller != null ==> caller.mm.fifoPgn == old(caller.mm.fifoPgn)
    ensures caller != null && (vmaid < 0 || vmaid >= PAGING_MAX_SYMTBL_SZ || old(caller.mm.mmap) == []) ==>
              ret == -1 && caller.mm.mmap == old(caller.mm.mmap)
    ensures caller != null && 0 <= vmaid < PAGING_MAX_SYMTBL_SZ && old(caller.mm.mmap) != [] ==>
              var m0 := old(caller.mm.mmap);
              var k := GetVmaByNum(m0, vmaid).value;
              if GrowthAccepted(m0, vmaid, k, incSz) then
                && caller.mm.mmap == m0[k := Grow(m0[k], incSz)]
                && ret == (if mapOk then PageAlignSz(incSz) else -1)
              else
                ret == -1 && caller.mm.mmap == m0
  {
    if vmaid < 0 || vmaid >= PAGING_MAX_SYMTBL_SZ {
      return -1;
    }
    if caller == null {
      return -1;
    }
    var mm := caller.mm;
    var incAmt := PageAlignSz(incSz);
    var area := GetVmAreaNodeAtBrk(mm.mmap, vmaid, incSz, incAmt);
    if area.None? {
      return -1;
    }
    var cur := GetVmaByNum(mm.mmap, vmaid);
    if cur.None? {
      return -1;
    }
    var k := cur.value;
    var oldEnd := mm.mmap[k].vmEnd;
    if ValidateOverlapVmArea(mm.mmap, vmaid, area.value.rgStart, area.value.rgEnd) < 0 {
      return -1;
    }
    var sbrk := area.value.rgStart + incSz;
    var vmEnd := area.value.rgEnd;
    var freeRgAfterUsed := Region(sbrk, vmEnd);
    mm.mmap := mm.mmap[k := mm.mmap[k].(sbrk := sbrk, vmEnd := vmEnd,
                                        freeList := [freeRgAfterUsed] + mm.mmap[k].freeList)];
    if !mapOk {
      return -1;
    }
    ret := vmEnd - oldEnd;
  }

  /** Growth returns exactly the page-aligned amount, and the head of the
      free list is afterwards exactly [sbrk, vm_end). */
  lemma GrowShape(a: VmArea, incSz: nat)
    ensures var g := Grow(a, incSz);
            && g.sbrk == a.vmEnd + incSz
            && g.vmEnd - a.vmEnd == PageAlignSz(incSz)
            && g.freeList[0] == Region(g.sbrk, g.vmEnd)
            && g.freeList[1..] == a.freeList
            && g.vmId == a.vmId && g.vmStart == a.vmStart
  {
  }

  /** Starting from sbrk <= vm_end, growth keeps sbrk <= vm_end and never
      moves either field down. */
  lemma GrowMonotone(a: VmArea, incSz: nat)
    requires a.sbrk <= a.vmEnd
    ensures var g := Grow(a, incSz);
            && g.sbrk <= g.vmEnd
            && a.sbrk <= g.sbrk
            && a.vmEnd <= g.vmEnd
  {
  }

  /** The test sequence: from an empty area, growing by 300, 400 and 100
      gives (sbrk, vm_end) = (300, 512), (912, 1024), (1124, 1280). */
  lemma GrowSequence(a: VmArea)
    requires a.sbrk == 0 && a.vmEnd == 0
    ensures var g1 := Grow(a, 300);
            var g2 := Grow(g1, 400);
            var g3 := Grow(g2, 100);
            && g1.sbrk == 300 && g1.vmEnd == 512
            && g2.sbrk == 912 && g2.vmEnd == 1024
            && g3.sbrk == 1124 && g3.vmEnd == 1280
  {
  }

  /** __mm_swap_page: exchange the first byte of RAM frame vicfpn with the
      first byte of SWAP frame swpfpn; every other byte stays.  (When both
      handles name the same store, the two bytes trade places within it.) */
  method MmSwapPage(caller: Pcb, vicfpn: int, swpfpn: int) returns (ret: int)
    requires 0 <= vicfpn * PAGING_PAGESZ < caller.mram.storage.Length
    requires 0 <= swpfpn * PAGING_PAGESZ < caller.activeMswp.storage.Length
    modifies caller.mram.storage, caller.activeMswp.storage
    ensures ret == 0
    ensures caller.mram.storage[vicfpn * PAGING_PAGESZ] == old(caller.activeMswp.storage[swpfpn * PAGING_PAGESZ])
    ensures caller.activeMswp.storage[swpfpn * PAGING_PAGESZ] == old(caller.mram.storage[vicfpn * PAGING_PAGESZ])
    ensures forall i :: 0 <= i < caller.mram.storage.Length && i != vicfpn * PAGING_PAGESZ &&
                        (caller.mram.storage != caller.activeMswp.storage || i != swpfpn * PAGING_PAGESZ) ==>
                        caller.mram.storage[i] == old(caller.mram.storage[i])
    ensures forall i :: 0 <= i < caller.activeMswp.storage.Length && i != swpfpn * PAGING_PAGESZ &&
                        (caller.mram.storage != caller.activeMswp.storage || i != vicfpn * PAGING_PAGESZ) ==>
                        caller.activeMswp.storage[i] == old(caller.activeMswp.storage[i])
  {
    var vaddr := vicfpn * PAGING_PAGESZ;
    var saddr := swpfpn * PAGING_PAGESZ;
    var r1, buf1 := caller.mram.Read(vaddr);
    var r2, buf2 := caller.activeMswp.Read(saddr);
    var w1 := caller.mram.Write(vaddr, buf2);
    var w2 := caller.activeMswp.Write(saddr, buf1);
    ret := 0;
  }
}
