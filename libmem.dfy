/** The paging memory library of libmem.c: the region allocator over a
    virtual area's free list and the symbol table, page lookup with victim
    selection from fifo_pgn, byte access through the page table, and the
    release of a process's frames. */
module LibMem {
  import opened Common
  import opened MmVm

  /* ---------------------------------------------------------------- */
  /* Ranges and the allocator invariant                                */
  /* ---------------------------------------------------------------- */

  function Len(r: Region): int { r.rgEnd - r.rgStart }

  /** A range that holds at least one byte. */
  predicate Live(r: Region) { r.rgStart < r.rgEnd }

  /** Two ranges share no byte. */
  predicate Apart(r: Region, q: Region)
  {
    !Live(r) || !Live(q) || r.rgEnd <= q.rgStart || q.rgEnd <= r.rgStart
  }

  /** Every byte of r lies in big. */
  predicate Within(r: Region, big: Region)
  {
    !Live(r) || (big.rgStart <= r.rgStart && r.rgEnd <= big.rgEnd)
  }

  lemma ApartWithin(r: Region, big: Region, q: Region, bigQ: Region)
    requires Within(r, big) && Within(q, bigQ) && Apart(big, bigQ)
    ensures Apart(r, q)
  {
  }

  /** Byte x lies in some range of fl. */
  ghost predicate Covered(fl: seq<Region>, x: int)
  {
    exists j :: 0 <= j < |fl| && fl[j].rgStart <= x < fl[j].rgEnd
  }

  /** The allocator invariant of one area and the symbol table t: the free
      nodes and the bound regions never share a byte, no two bound regions
      share one, everything lies below vm_end, and sbrk <= vm_end. */
  ghost predicate AreaConsistent(a: VmArea, t: seq<Region>)
  {
    var fl := a.freeList;
    && a.sbrk <= a.vmEnd
    && (forall i :: 0 <= i < |fl| ==> !Live(fl[i]) || fl[i].rgEnd <= a.vmEnd)
    && (forall i :: 0 <= i < |t| ==> !Live(t[i]) || t[i].rgEnd <= a.vmEnd)
    && (forall i, j :: 0 <= i < j < |fl| ==> Apart(fl[i], fl[j]))
    && (forall i, j :: 0 <= i < j < |t| ==> Apart(t[i], t[j]))
    && (forall i, j :: 0 <= i < |fl| && 0 <= j < |t| ==> Apart(fl[i], t[j]))
  }

  /** The state a new process starts from is consistent. */
  lemma InitConsistent()
    ensures AreaConsistent(VmArea(0, 0, 0, 0, [Region(0, 0)]), seq(PAGING_MAX_SYMTBL_SZ, _ => Region(0, 0)))
  {
  }

  /* ---------------------------------------------------------------- */
  /* Symbol table lookup                                               */
  /* ---------------------------------------------------------------- */

  /** The slot-id test of get_symrg_byid and __free as written: it rejects
      only rgid < 0 and rgid > PAGING_MAX_SYMTBL_SZ. */
  predicate SymIdAcceptedAsWritten(rgid: int)
  {
    !(rgid < 0 || rgid > PAGING_MAX_SYMTBL_SZ)
  }

  /** The as-written test lets through rgid == PAGING_MAX_SYMTBL_SZ, one past
      the last slot of a table of PAGING_MAX_SYMTBL_SZ entries. */
  lemma AsWrittenAdmitsOnePastEnd(mm: MmStruct)
    requires mm.Valid()
    ensures SymIdAcceptedAsWritten(PAGING_MAX_SYMTBL_SZ)
    ensures !(PAGING_MAX_SYMTBL_SZ < mm.symrgtbl.Length)
  {
  }

  /** get_symrg_byid with the intended bound: the slot index, or None (NULL)
      for an id outside the table. */
  function GetSymrgById(rgid: int): (r: Option<nat>)
    ensures r.Some? <==> 0 <= rgid < PAGING_MAX_SYMTBL_SZ
    ensures r.Some? ==> r.value == rgid
  {
    if rgid < 0 || rgid >= PAGING_MAX_SYMTBL_SZ then None else Some(rgid)
  }

  /** The intended test and the written one disagree on exactly one id. */
  lemma SymIdTestsDifferOnlyAtMax(rgid: int)
    ensures SymIdAcceptedAsWritten(rgid) != GetSymrgById(rgid).Some? <==> rgid == PAGING_MAX_SYMTBL_SZ
  {
  }

  /* ---------------------------------------------------------------- */
  /* First fit over the free list                                      */
  /* ---------------------------------------------------------------- */

  /** The index of the first node of fl at least size bytes long. */
  function FirstFit(fl: seq<Region>, size: int): (r: Option<nat>)
    ensures r.Some? ==> r.value < |fl| && Len(fl[r.value]) >= size
    ensures r.Some? ==> forall j :: 0 <= j < r.value ==> Len(fl[j]) < size
    ensures r.None? <==> forall j :: 0 <= j < |fl| ==> Len(fl[j]) < size
  {
    FirstFitFrom(fl, size, 0)
  }

  function FirstFitFrom(fl: seq<Region>, size: int, k: nat): (r: Option<nat>)
    requires k <= |fl|
    ensures r.Some? ==> k <= r.value < |fl| && Len(fl[r.value]) >= size
    ensures r.Some? ==> forall j :: k <= j < r.value ==> Len(fl[j]) < size
    ensures r.None? <==> forall j :: k <= j < |fl| ==> Len(fl[j]) < size
    decreases |fl| - k
  {
    if k == |fl| then None
    else if Len(fl[k]) >= size then Some(k)
    else FirstFitFrom(fl, size, k + 1)
  }

  /** The free list after taking size bytes from the front of node i: an
      exact fit unlinks the node, a larger node starts size bytes later. */
  function Carve(fl: seq<Region>, i: nat, size: int): seq<Region>
    requires i < |fl|
  {
    if Len(fl[i]) == size then fl[..i] + fl[i + 1..]
    else fl[i := Region(fl[i].rgStart + size, fl[i].rgEnd)]
  }

  /** Carving loses no free byte: what was free is either still free or in
      the range handed out, and nothing new becomes free. */
  lemma CarveCoverage(fl: seq<Region>, i: nat, size: nat, x: int)
    requires i < |fl| && Len(fl[i]) >= size
    ensures Covered(fl, x) <==>
            Covered(Carve(fl, i, size), x) || fl[i].rgStart <= x < fl[i].rgStart + size
  {
    var c := Carve(fl, i, size);
    var s := fl[i].rgStart;
    if Covered(fl, x) && !(s <= x < s + size) {
      var j :| 0 <= j < |fl| && fl[j].rgStart <= x < fl[j].rgEnd;
      if Len(fl[i]) == size {
        if j < i {
          assert c[j] == fl[j];
        } else {
          assert j != i;
          assert c[j - 1] == fl[j];
        }
      } else {
        assert c[j].rgStart <= x < c[j].rgEnd;
      }
    }
    if Covered(c, x) {
      var j :| 0 <= j < |c| && c[j].rgStart <= x < c[j].rgEnd;
      if Len(fl[i]) == size {
        if j < i {
          assert fl[j] == c[j];
        } else {
          assert fl[j + 1] == c[j];
        }
      } else {
        assert fl[j].rgStart <= x < fl[j].rgEnd;
      }
    }
    if s <= x < s + size {
      assert fl[i].rgStart <= x < fl[i].rgEnd;
    }
  }

  /** The node of fl that node j of Carve(fl, i, size) comes from. */
  function CarveSource(fl: seq<Region>, i: nat, size: int, j: nat): nat
    requires i < |fl|
  {
    if Len(fl[i]) == size && j >= i then j + 1 else j
  }

  lemma CarveFrom(fl: seq<Region>, i: nat, size: nat, j: nat)
    requires i < |fl| && Len(fl[i]) >= size && j < |Carve(fl, i, size)|
    ensures CarveSource(fl, i, size, j) < |fl|
    ensures Within(Carve(fl, i, size)[j], fl[CarveSource(fl, i, size, j)])
    ensures CarveSource(fl, i, size, j) == i ==>
              Carve(fl, i, size)[j] == Region(fl[i].rgStart + size, fl[i].rgEnd)
  {
  }

  /** The nodes left by carving lie inside the old nodes, so they stay
      below vm_end and pairwise apart. */
  lemma CarveKeepsApart(a: VmArea, t: seq<Region>, i: nat, size: nat)
    requires AreaConsistent(a, t) && i < |a.freeList| && Len(a.freeList[i]) >= size
    ensures var c := Carve(a.freeList, i, size);
            && (forall j :: 0 <= j < |c| ==> !Live(c[j]) || c[j].rgEnd <= a.vmEnd)
            && (forall j1, j2 :: 0 <= j1 < j2 < |c| ==> Apart(c[j1], c[j2]))
  {
    var fl := a.freeList;
    var c := Carve(fl, i, size);
    forall j | 0 <= j < |c|
      ensures !Live(c[j]) || c[j].rgEnd <= a.vmEnd
    {
      CarveFrom(fl, i, size, j);
    }
    forall j1, j2 | 0 <= j1 < j2 < |c|
      ensures Apart(c[j1], c[j2])
    {
      CarveFrom(fl, i, size, j1);
      CarveFrom(fl, i, size, j2);
      ApartWithin(c[j1], fl[CarveSource(fl, i, size, j1)], c[j2], fl[CarveSource(fl, i, size, j2)]);
    }
  }

  /** Binding the carved range to slot rgid keeps the table entries below
      vm_end and pairwise apart. */
  lemma BindKeepsApart(a: VmArea, t: seq<Region>, rgid: nat, i: nat, size: nat)
    requires AreaConsistent(a, t) && rgid < |t| && i < |a.freeList| && Len(a.freeList[i]) >= size
    ensures var fl := a.freeList;
            var nt := t[rgid := Region(fl[i].rgStart, fl[i].rgStart + size)];
            && (forall j :: 0 <= j < |nt| ==> !Live(nt[j]) || nt[j].rgEnd <= a.vmEnd)
            && (forall j1, j2 :: 0 <= j1 < j2 < |nt| ==> Apart(nt[j1], nt[j2]))
  {
    var fl := a.freeList;
    var nr := Region(fl[i].rgStart, fl[i].rgStart + size);
    var nt := t[rgid := nr];
    assert Within(nr, fl[i]);
    forall j1, j2 | 0 <= j1 < j2 < |nt|
      ensures Apart(nt[j1], nt[j2])
    {
      if j1 == rgid {
        ApartWithin(nr, fl[i], nt[j2], t[j2]);
      } else if j2 == rgid {
        ApartWithin(nt[j1], t[j1], nr, fl[i]);
      }
    }
  }

  /** After carving and binding, no free node meets a table entry. */
  lemma CarveBindApart(a: VmArea, t: seq<Region>, rgid: nat, i: nat, size: nat)
    requires AreaConsistent(a, t) && rgid < |t| && i < |a.freeList| && Len(a.freeList[i]) >= size
    ensures var fl := a.freeList;
            var c := Carve(fl, i, size);
            var nt := t[rgid := Region(fl[i].rgStart, fl[i].rgStart + size)];
            forall j1, j2 :: 0 <= j1 < |c| && 0 <= j2 < |nt| ==> Apart(c[j1], nt[j2])
  {
    var fl := a.freeList;
    var c := Carve(fl, i, size);
    var nr := Region(fl[i].rgStart, fl[i].rgStart + size);
    var nt := t[rgid := nr];
    assert Within(nr, fl[i]);
    forall j1, j2 | 0 <= j1 < |c| && 0 <= j2 < |nt|
      ensures Apart(c[j1], nt[j2])
    {
      CarveFrom(fl, i, size, j1);
      var src := CarveSource(fl, i, size, j1);
      if j2 == rgid {
        if src == i {
          assert Apart(c[j1], nr);
        } else {
          ApartWithin(c[j1], fl[src], nr, fl[i]);
        }
      } else {
        ApartWithin(c[j1], fl[src], nt[j2], t[j2]);
      }
    }
  }

  /** Handing out the first fit keeps the allocator invariant. */
  lemma FitKeepsConsistent(a: VmArea, t: seq<Region>, rgid: nat, size: nat)
    requires AreaConsistent(a, t) && rgid < |t| && FirstFit(a.freeList, size).Some?
    ensures var fl := a.freeList;
            var i := FirstFit(fl, size).value;
            AreaConsistent(a.(freeList := Carve(fl, i, size)),
                           t[rgid := Region(fl[i].rgStart, fl[i].rgStart + size)])
  {
    var i := FirstFit(a.freeList, size).value;
    CarveKeepsApart(a, t, i, size);
    BindKeepsApart(a, t, rgid, i, size);
    CarveBindApart(a, t, rgid, i, size);
  }

  /** Growing the area (and, when the mapping succeeds, binding the range
      [old vm_end, old vm_end + size)) keeps the allocator invariant. */
  lemma GrowKeepsConsistent(a: VmArea, t: seq<Region>, rgid: nat, size: nat)
    requires AreaConsistent(a, t) && rgid < |t|
    ensures AreaConsistent(Grow(a, size), t)
    ensures AreaConsistent(Grow(a, size), t[rgid := Region(a.vmEnd, a.vmEnd + size)])
  {
    var g := Grow(a, size);
    var nr := Region(a.vmEnd, a.vmEnd + size);
    var nt := t[rgid := nr];
    forall j1, j2 | 0 <= j1 < j2 < |g.freeList|
      ensures Apart(g.freeList[j1], g.freeList[j2])
    {
      if j1 > 0 {
        assert g.freeList[j1] == a.freeList[j1 - 1];
        assert g.freeList[j2] == a.freeList[j2 - 1];
      }
    }
    forall j1, j2 | 0 <= j1 < |g.freeList| && 0 <= j2 < |t|
      ensures Apart(g.freeList[j1], t[j2])
    {
      if j1 > 0 {
        assert g.freeList[j1] == a.freeList[j1 - 1];
      }
    }
    forall j1, j2 | 0 <= j1 < |g.freeList| && 0 <= j2 < |nt|
      ensures Apart(g.freeList[j1], nt[j2])
    {
      if j1 > 0 {
        assert g.freeList[j1] == a.freeList[j1 - 1];
      }
    }
  }

  /** Returning a bound region to the free list and clearing its slot
      keeps the allocator invariant. */
  lemma FreeKeepsConsistent(a: VmArea, t: seq<Region>, rgid: nat, ins: Insert)
    requires AreaConsistent(a, t) && rgid < |t|
    ensures AreaConsistent(a.(freeList := Enlist(a.freeList, t[rgid], ins)), t[rgid := Region(0, 0)])
  {
    var fl := a.freeList;
    var nf := Enlist(fl, t[rgid], ins);
    var nt := t[rgid := Region(0, 0)];
    // Each node of nf is either the freed region or an old node.
    forall j | 0 <= j < |nf|
      ensures (ins == AtHead && j == 0) || (ins == AtTail && j == |fl|) ==> nf[j] == t[rgid]
      ensures ins == AtHead && j > 0 ==> nf[j] == fl[j - 1]
      ensures ins == AtTail && j < |fl| ==> nf[j] == fl[j]
    {
    }
    forall j1, j2 | 0 <= j1 < j2 < |nf|
      ensures Apart(nf[j1], nf[j2])
    {
    }
    forall j1, j2 | 0 <= j1 < |nf| && 0 <= j2 < |nt|
      ensures Apart(nf[j1], nt[j2])
    {
    }
  }

  /* ---------------------------------------------------------------- */
  /* Allocation and release of regions                                 */
  /* ---------------------------------------------------------------- */

  /** get_free_vmrg_area: first-fit search of the free list of area vmaid.
      On success the range [s, s + size) is returned, s being the start of
      the first node at least size bytes long, and that node is unlinked
      (exact fit) or shortened from the front; otherwise the list is left
      as it was. */
  method GetFreeVmrgArea(mm: MmStruct, vmaid: int, size: int) returns (ret: int, newrg: Region)
    requires VmaLookupDefined(mm.mmap, vmaid)
    modifies mm
    ensures mm.fifoPgn == old(mm.fifoPgn)
    ensures ret == 0 || ret == -1
    ensures old(mm.mmap) == [] ==> ret == -1 && mm.mmap == old(mm.mmap)
    ensures old(mm.mmap) != [] ==>
              var k := GetVmaByNum(old(mm.mmap), vmaid).value;
              var fl := old(mm.mmap)[k].freeList;
              match FirstFit(fl, size)
              case None => ret == -1 && newrg == Region(-1, -1) && mm.mmap == old(mm.mmap)
              case Some(i) =>
                && ret == 0
                && newrg == Region(fl[i].rgStart, fl[i].rgStart + size)
                && mm.mmap == old(mm.mmap)[k := old(mm.mmap)[k].(freeList := Carve(fl, i, size))]
  {
    var cur := GetVmaByNum(mm.mmap, vmaid);
    if cur.None? {
      return -1, Region(0, 0);
    }
    var k := cur.value;
    var fl := mm.mmap[k].freeList;
    newrg := Region(-1, -1);
    if fl == [] {
      return -1, newrg;
    }
    var i := 0;
    while i < |fl|
      invariant 0 <= i <= |fl|
      invariant forall j :: 0 <= j < i ==> Len(fl[j]) < size
    {
      var regionSize := fl[i].rgEnd - fl[i].rgStart;
      if regionSize >= size {
        newrg := Region(fl[i].rgStart, fl[i].rgStart + size);
        var nfl: seq<Region>;
        if regionSize == size {
          nfl := fl[..i] + fl[i + 1..];
        } else {
          nfl := fl[i := Region(fl[i].rgStart + size, fl[i].rgEnd)];
        }
        assert FirstFit(fl, size) == Some(i);
        mm.mmap := mm.mmap[k := mm.mmap[k].(freeList := nfl)];
        return 0, newrg;
      }
      i := i + 1;
    }
    ret := -1;
  }

  /** What __alloc does to area k of mmap: the fields ret (0 or -1), addr
      (meaningful when ret is 0), the new area, and the range bound to the
      slot (None when the slot is not written). */
  datatype AllocOutcome = AllocOutcome(ret: int, addr: int, area: VmArea, slot: Option<Region>)

  /** __alloc on area k: first fit; when nothing fits, growth by size
      through inc_vma_limit and the range [old vm_end, old vm_end + size);
      a failed mapping leaves the area grown and the slot untouched. */
  function AllocInArea(mmap: seq<VmArea>, k: nat, vmaid: int, size: nat, mapOk: bool): AllocOutcome
    requires k < |mmap|
  {
    var a := mmap[k];
    match FirstFit(a.freeList, size)
    case Some(i) =>
      var s := a.freeList[i].rgStart;
      AllocOutcome(0, s, a.(freeList := Carve(a.freeList, i, size)), Some(Region(s, s + size)))
    case None =>
      if !GrowthAccepted(mmap, vmaid, k, size) then AllocOutcome(-1, 0, a, None)
      else if !mapOk then AllocOutcome(-1, 0, Grow(a, size), None)
      else AllocOutcome(0, a.vmEnd, Grow(a, size), Some(Region(a.vmEnd, a.vmEnd + size)))
  }

  /** A successful allocation binds exactly [addr, addr + size); the range
      comes from free space (first fit) or from just past the old end. */
  lemma AllocBindsRange(mmap: seq<VmArea>, k: nat, vmaid: int, size: nat, mapOk: bool)
    requires k < |mmap|
    ensures var o := AllocInArea(mmap, k, vmaid, size, mapOk);
            && (o.ret == 0 || o.ret == -1)
            && (o.ret == 0 <==> o.slot.Some?)
            && (o.ret == 0 ==> o.slot.value == Region(o.addr, o.addr + size))
            && (o.ret == 0 ==> (forall x :: o.addr <= x < o.addr + size ==> Covered(mmap[k].freeList, x))
                               || o.addr == mmap[k].vmEnd)
  {
    var o := AllocInArea(mmap, k, vmaid, size, mapOk);
    var fl := mmap[k].freeList;
    match FirstFit(fl, size)
    case Some(i) =>
      forall x | o.addr <= x < o.addr + size
        ensures Covered(fl, x)
      {
        CarveCoverage(fl, i, size, x);
      }
    case None =>
  }

  /** __alloc keeps the allocator invariant of the area it works on. */
  lemma AllocKeepsConsistent(mmap: seq<VmArea>, k: nat, vmaid: int, size: nat, mapOk: bool, t: seq<Region>, rgid: nat)
    requires k < |mmap| && rgid < |t| && AreaConsistent(mmap[k], t)
    ensures var o := AllocInArea(mmap, k, vmaid, size, mapOk);
            AreaConsistent(o.area, if o.slot.Some? then t[rgid := o.slot.value] else t)
  {
    if FirstFit(mmap[k].freeList, size).Some? {
      AllocByFitConsistent(mmap, k, vmaid, size, mapOk, t, rgid);
    } else {
      AllocByGrowthConsistent(mmap, k, vmaid, size, mapOk, t, rgid);
    }
  }

  /** The first-fit case of AllocKeepsConsistent. */
  lemma AllocByFitConsistent(mmap: seq<VmArea>, k: nat, vmaid: int, size: nat, mapOk: bool, t: seq<Region>, rgid: nat)
    requires k < |mmap| && rgid < |t| && AreaConsistent(mmap[k], t)
    requires FirstFit(mmap[k].freeList, size).Some?
    ensures var o := AllocInArea(mmap, k, vmaid, size, mapOk);
            AreaConsistent(o.area, if o.slot.Some? then t[rgid := o.slot.value] else t)
  {
    var a := mmap[k];
    var i := FirstFit(a.freeList, size).value;
    var s := a.freeList[i].rgStart;
    FitKeepsConsistent(a, t, rgid, size);
    assert AllocInArea(mmap, k, vmaid, size, mapOk) ==
           AllocOutcome(0, s, a.(freeList := Carve(a.freeList, i, size)), Some(Region(s, s + size)));
  }

  /** The growth case of AllocKeepsConsistent. */
  lemma AllocByGrowthConsistent(mmap: seq<VmArea>, k: nat, vmaid: int, size: nat, mapOk: bool, t: seq<Region>, rgid: nat)
    requires k < |mmap| && rgid < |t| && AreaConsistent(mmap[k], t)
    requires FirstFit(mmap[k].freeList, size).None?
    ensures var o := AllocInArea(mmap, k, vmaid, size, mapOk);
            AreaConsistent(o.area, if o.slot.Some? then t[rgid := o.slot.value] else t)
  {
    var a := mmap[k];
    GrowKeepsConsistent(a, t, rgid, size);
    var o := AllocInArea(mmap, k, vmaid, size, mapOk);
    if !GrowthAccepted(mmap, vmaid, k, size) {
      assert o == AllocOutcome(-1, 0, a, None);
    } else if !mapOk {
      assert o == AllocOutcome(-1, 0, Grow(a, size), None);
    } else {
      assert o == AllocOutcome(0, a.vmEnd, Grow(a, size), Some(Region(a.vmEnd, a.vmEnd + size)));
    }
  }

  lemma FirstStepFacts()
    ensures FirstFit([Region(0, 0)], 200) == None
    ensures GrowthAccepted([VmArea(0, 0, 0, 0, [Region(0, 0)])], 0, 0, 200)
    ensures Grow(VmArea(0, 0, 0, 0, [Region(0, 0)]), 200) == VmArea(0, 0, 256, 200, [Region(200, 256), Region(0, 0)])
  {
    assert PageAlignSz(200) == 256;
    assert !AnyOverlap([Region(0, 0)], 0, 256);
  }

  lemma SecondStepFacts()
    ensures FirstFit([Region(200, 256), Region(0, 0)], 100) == None
    ensures GrowthAccepted([VmArea(0, 0, 256, 200, [Region(200, 256), Region(0, 0)])], 0, 0, 100)
    ensures Grow(VmArea(0, 0, 256, 200, [Region(200, 256), Region(0, 0)]), 100) ==
            VmArea(0, 0, 512, 356, [Region(356, 512), Region(200, 256), Region(0, 0)])
  {
    assert PageAlignSz(100) == 256;
    assert !AnyOverlap([Region(0, 0)], 256, 512);
    assert !AnyOverlap([Region(200, 256), Region(0, 0)], 256, 512);
  }

  /** First allocation of the test sequence: 200 bytes on a fresh area
      fit nowhere, so the area grows to [0, 256) with sbrk 200. */
  lemma AllocFirstStep()
    ensures AllocInArea([VmArea(0, 0, 0, 0, [Region(0, 0)])], 0, 0, 200, true) ==
            AllocOutcome(0, 0, VmArea(0, 0, 256, 200, [Region(200, 256), Region(0, 0)]), Some(Region(0, 200)))
  {
    FirstStepFacts();
    var a := VmArea(0, 0, 0, 0, [Region(0, 0)]);
    assert a.freeList == [Region(0, 0)];
  }

  /** Second allocation: 100 bytes fit in neither free node, so the area
      grows again and the range starts at the old end, 256. */
  lemma AllocSecondStep()
    ensures AllocInArea([VmArea(0, 0, 256, 200, [Region(200, 256), Region(0, 0)])], 0, 0, 100, true) ==
            AllocOutcome(0, 256, VmArea(0, 0, 512, 356, [Region(356, 512), Region(200, 256), Region(0, 0)]), Some(Region(256, 356)))
  {
    SecondStepFacts();
    var a := VmArea(0, 0, 256, 200, [Region(200, 256), Region(0, 0)]);
    assert a.freeList == [Region(200, 256), Region(0, 0)];
  }

  /** The test sequence on a fresh process: allocating 200 bytes gives
      address 0 and allocating 100 more gives 256. */
  lemma AllocScenario()
    ensures var m0 := [VmArea(0, 0, 0, 0, [Region(0, 0)])];
            var o1 := AllocInArea(m0, 0, 0, 200, true);
            var m1 := m0[0 := o1.area];
            var o2 := AllocInArea(m1, 0, 0, 100, true);
            && o1.ret == 0 && o1.addr == 0
            && o2.ret == 0 && o2.addr == 256
            && o2.slot == Some(Region(256, 356))
  {
    AllocFirstStep();
    AllocSecondStep();
    var m0 := [VmArea(0, 0, 0, 0, [Region(0, 0)])];
    assert m0[0 := VmArea(0, 0, 256, 200, [Region(200, 256), Region(0, 0)])] ==
           [VmArea(0, 0, 256, 200, [Region(200, 256), Region(0, 0)])];
  }

  /** __alloc: bind a range of size bytes to slot rgid of the symbol table,
      by first fit or by growing the area. */
  method Alloc(caller: Pcb, vmaid: int, rgid: int, size: nat, mapOk: bool) returns (ret: int, addr: int)
    requires caller.mm.Valid() && 0 <= rgid < PAGING_MAX_SYMTBL_SZ
    requires VmaLookupDefined(caller.mm.mmap, vmaid)
    modifies caller.mm, caller.mm.symrgtbl
    ensures caller.mm.Valid() && caller.mm.fifoPgn == old(caller.mm.fifoPgn)
    ensures old(caller.mm.mmap) == [] ==>
              ret == -1 && caller.mm.mmap == old(caller.mm.mmap) &&
              caller.mm.symrgtbl[..] == old(caller.mm.symrgtbl[..])
    ensures old(caller.mm.mmap) != [] ==>
              var k := GetVmaByNum(old(caller.mm.mmap), vmaid).value;
              var o := AllocInArea(old(caller.mm.mmap), k, vmaid, size, mapOk);
              && ret == o.ret
              && (ret == 0 ==> addr == o.addr)
              && caller.mm.mmap == old(caller.mm.mmap)[k := o.area]
              && caller.mm.symrgtbl[..] == (if o.slot.Some? then old(caller.mm.symrgtbl[..])[rgid := o.slot.value]
                                            else old(caller.mm.symrgtbl[..]))
  {
    var mm := caller.mm;
    var r, rgnode := GetFreeVmrgArea(mm, vmaid, size);
    if r == 0 {
      mm.symrgtbl[rgid] := Region(rgnode.rgStart, rgnode.rgEnd);
      return 0, rgnode.rgStart;
    }
    var cur := GetVmaByNum(mm.mmap, vmaid);
    if cur.None? {
      return -1, 0;
    }
    var k := cur.value;
    var incRet := IncVmaLimit(caller, vmaid, size, mapOk);
    if incRet < 0 {
      return -1, 0;
    }
    addr := mm.mmap[k].sbrk - size;
    mm.symrgtbl[rgid] := Region(addr, mm.mmap[k].sbrk);
    ret := 0;
  }

  /** __free: return the range bound to slot rgid to the area's free list
      and reset the slot to (0, 0).  -1 for an id outside the table, an
      empty slot, or a missing area; nothing changes then. */
  method Free(mm: MmStruct, vmaid: int, rgid: int) returns (ret: int)
    requires mm.Valid() && VmaLookupDefined(mm.mmap, vmaid)
    modifies mm, mm.symrgtbl
    ensures mm.Valid() && mm.fifoPgn == old(mm.fifoPgn)
    ensures ret == 0 || ret == -1
    ensures ret == 0 <==> GetSymrgById(rgid).Some? && Live(old(mm.symrgtbl[rgid])) && old(mm.mmap) != []
    ensures ret == -1 ==> mm.mmap == old(mm.mmap) && mm.symrgtbl[..] == old(mm.symrgtbl[..])
    ensures ret == 0 ==>
              var k := GetVmaByNum(old(mm.mmap), vmaid).value;
              var a := old(mm.mmap)[k];
              && mm.mmap == old(mm.mmap)[k := a.(freeList := Enlist(a.freeList, old(mm.symrgtbl[rgid]), mm.rgInsert))]
              && mm.symrgtbl[..] == old(mm.symrgtbl[..])[rgid := Region(0, 0)]
  {
    if GetSymrgById(rgid).None? {
      return -1;
    }
    var allocatedRegion := mm.symrgtbl[rgid];
    if allocatedRegion.rgStart >= allocatedRegion.rgEnd {
      return -1;
    }
    var freeRegion := Region(allocatedRegion.rgStart, allocatedRegion.rgEnd);
    var cur := GetVmaByNum(mm.mmap, vmaid);
    if cur.None? {
      return -1;
    }
    var k := cur.value;
    mm.mmap := mm.mmap[k := mm.mmap[k].(freeList := Enlist(mm.mmap[k].freeList, freeRegion, mm.rgInsert))];
    mm.symrgtbl[rgid] := Region(0, 0);
    ret := 0;
  }

  /** liballoc: -1 for a NULL process or a slot id outside the table,
      otherwise __alloc on area 0, giving the address or -1. */
  method LibAlloc(proc: Pcb?, size: nat, regIndex: nat, mapOk: bool) returns (ret: int)
    requires proc != null ==> proc.mm.Valid() && VmaLookupDefined(proc.mm.mmap, 0)
    modifies if proc != null then {proc.mm, proc.mm.symrgtbl} else {}
    ensures proc == null || regIndex >= PAGING_MAX_SYMTBL_SZ ==> ret == -1
    ensures proc != null ==> proc.mm.Valid()
    ensures proc != null && regIndex >= PAGING_MAX_SYMTBL_SZ ==>
              proc.mm.mmap == old(proc.mm.mmap) && proc.mm.symrgtbl[..] == old(proc.mm.symrgtbl[..])
    ensures proc != null && regIndex < PAGING_MAX_SYMTBL_SZ ==>
              var m0 := old(proc.mm.mmap);
              m0 == [] ==> ret == -1
    ensures proc != null && regIndex < PAGING_MAX_SYMTBL_SZ && old(proc.mm.mmap) != [] ==>
              var m0 := old(proc.mm.mmap);
              var k := GetVmaByNum(m0, 0).value;
              var o := AllocInArea(m0, k, 0, size, mapOk);
              && ret == (if o.ret == 0 then o.addr else -1)
              && proc.mm.mmap == m0[k := o.area]
              && proc.mm.symrgtbl[..] == (if o.slot.Some? then old(proc.mm.symrgtbl[..])[regIndex := o.slot.value]
                                          else old(proc.mm.symrgtbl[..]))
  {
    if proc == null || regIndex >= PAGING_MAX_SYMTBL_SZ {
      return -1;
    }
    var r, addr := Alloc(proc, 0, regIndex, size, mapOk);
    if r < 0 {
      return -1;
    }
    ret := addr;
  }

  /** libfree: __free on area 0.  A NULL process is dereferenced unless the
      id is rejected first, so callers pass a process or an id outside the
      table. */
  method LibFree(proc: Pcb?, regIndex: nat) returns (ret: int)
    requires proc == null ==> regIndex >= PAGING_MAX_SYMTBL_SZ
    requires proc != null ==> proc.mm.Valid() && VmaLookupDefined(proc.mm.mmap, 0)
    modifies if proc != null then {proc.mm, proc.mm.symrgtbl} else {}
    ensures regIndex >= PAGING_MAX_SYMTBL_SZ ==> ret == -1
    ensures proc != null ==>
              && proc.mm.Valid()
              && (ret == 0 <==> regIndex < PAGING_MAX_SYMTBL_SZ && Live(old(proc.mm.symrgtbl[regIndex])) && old(proc.mm.mmap) != [])
              && (ret == 0 ==>
                    var k := GetVmaByNum(old(proc.mm.mmap), 0).value;
                    var a := old(proc.mm.mmap)[k];
                    && proc.mm.mmap == old(proc.mm.mmap)[k := a.(freeList := Enlist(a.freeList, old(proc.mm.symrgtbl[regIndex]), proc.mm.rgInsert))]
                    && proc.mm.symrgtbl[..] == old(proc.mm.symrgtbl[..])[regIndex := Region(0, 0)])
              && (ret != 0 ==> proc.mm.mmap == old(proc.mm.mmap) && proc.mm.symrgtbl[..] == old(proc.mm.symrgtbl[..]))
  {
    if proc == null {
      return -1;
    }
    ret := Free(proc.mm, 0, regIndex);
  }

  /** A slot that was just freed holds (0, 0), so freeing it again fails;
      the second call changes nothing. */
  method FreeTwice(mm: MmStruct, rgid: int) returns (first: int, second: int)
    requires mm.Valid() && VmaLookupDefined(mm.mmap, 0)
    modifies mm, mm.symrgtbl
    ensures first == 0 ==> second == -1
  {
    first := Free(mm, 0, rgid);
    second := Free(mm, 0, rgid);
  }

  /** enlist_vm_freerg_list: link rg at the head of the FIRST area's free
      list, refusing a range that holds no byte. */
  method EnlistVmFreergList(mm: MmStruct, rg: Region) returns (ret: int)
    requires mm.mmap != []
    modifies mm
    ensures mm.fifoPgn == old(mm.fifoPgn)
    ensures ret == 0 || ret == -1
    ensures ret == -1 <==> rg.rgStart >= rg.rgEnd
    ensures ret == -1 ==> mm.mmap == old(mm.mmap)
    ensures ret == 0 ==> mm.mmap == old(mm.mmap)[0 := old(mm.mmap)[0].(freeList := [rg] + old(mm.mmap)[0].freeList)]
  {
    if rg.rgStart >= rg.rgEnd {
      return -1;
    }
    mm.mmap := mm.mmap[0 := mm.mmap[0].(freeList := [rg] + mm.mmap[0].freeList)];
    ret := 0;
  }

  /* ---------------------------------------------------------------- */
  /* Paging                                                            */
  /* ---------------------------------------------------------------- */

  /** Physical address of byte off of frame fpn. */
  function PhysAddr(fpn: int, off: int): int
  {
    fpn * PAGING_PAGESZ + off
  }

  /** Distinct (frame, offset) pairs name distinct bytes: frames do not
      overlap. */
  lemma PhysAddrInjective(f1: nat, o1: nat, f2: nat, o2: nat)
    requires o1 < PAGING_PAGESZ && o2 < PAGING_PAGESZ
    ensures PhysAddr(f1, o1) == PhysAddr(f2, o2) <==> f1 == f2 && o1 == o2
  {
    if f1 < f2 {
      assert PhysAddr(f1, o1) < (f1 + 1) * PAGING_PAGESZ <= f2 * PAGING_PAGESZ;
    } else if f2 < f1 {
      assert PhysAddr(f2, o2) < (f2 + 1) * PAGING_PAGESZ <= f1 * PAGING_PAGESZ;
    }
  }

  /** The page number and offset of a virtual address. */
  function Pgn(addr: nat): nat { addr / PAGING_PAGESZ }
  function Offst(addr: nat): nat { addr % PAGING_PAGESZ }

  /** A virtual address is its page's base plus its offset, the offset
      lying inside the page. */
  lemma PgnOffstSplit(addr: nat)
    ensures Offst(addr) < PAGING_PAGESZ
    ensures addr == Pgn(addr) * PAGING_PAGESZ + Offst(addr)
  {
  }

  /** Two different addresses of one page land on different bytes of
      whatever frame holds that page. */
  lemma SamePageDistinctBytes(fpn: nat, a1: nat, a2: nat)
    requires Pgn(a1) == Pgn(a2) && a1 != a2
    ensures PhysAddr(fpn, Offst(a1)) != PhysAddr(fpn, Offst(a2))
  {
    PgnOffstSplit(a1);
    PgnOffstSplit(a2);
    PhysAddrInjective(fpn, Offst(a1), fpn, Offst(a2));
  }

  /** find_victim_page: the head of fifo_pgn, which is unlinked; -1 on an
      empty list. */
  method FindVictimPage(mm: MmStruct) returns (ret: int, retpgn: int)
    modifies mm
    ensures mm.mmap == old(mm.mmap)
    ensures ret == -1 <==> old(mm.fifoPgn) == []
    ensures ret == -1 ==> mm.fifoPgn == old(mm.fifoPgn)
    ensures ret != -1 ==> ret == 0 && retpgn == old(mm.fifoPgn)[0] && mm.fifoPgn == old(mm.fifoPgn)[1..]
  {
    if mm.fifoPgn == [] {
      return -1, 0;
    }
    retpgn := mm.fifoPgn[0];
    mm.fifoPgn := mm.fifoPgn[1..];
    ret := 0;
  }

  /** pg_getpage can produce a frame for page pgn: the page is present, a
      RAM frame is free, or fifo_pgn names a victim. */
  ghost predicate PageObtainable(caller: Pcb, pgn: int)
    reads caller, caller.mm, caller.mm.pgd, caller.mram
    requires 0 <= pgn < caller.mm.pgd.Length
  {
    caller.mm.pgd[pgn].Present? || caller.mram.freeFrames != multiset{} || caller.mm.fifoPgn != []
  }

  /** pg_getpage (with mm being the caller's own mm_struct).  A present page
      gives its frame and nothing changes.  A missing page takes a free RAM
      frame or, failing that, the frame of the victim popped from fifo_pgn
      (whose entry still says present, so both pages then name one frame);
      it is marked present and linked into fifo_pgn. */
  method PgGetPage(caller: Pcb, pgn: int) returns (ret: int, fpn: int)
    requires caller.mm.Valid() && 0 <= pgn < caller.mm.pgd.Length
    modifies caller.mm, caller.mm.pgd, caller.mram
    ensures caller.mm.Valid() && caller.mm.mmap == old(caller.mm.mmap)
    ensures ret == 0 || ret == -1
    ensures ret == 0 <==> old(PageObtainable(caller, pgn))
    ensures ret == 0 ==> fpn >= 0 && caller.mm.pgd[pgn] == Present(fpn)
    ensures ret == -1 ==> caller.mm.pgd[..] == old(caller.mm.pgd[..]) && caller.mm.fifoPgn == old(caller.mm.fifoPgn)
                          && caller.mram.freeFrames == old(caller.mram.freeFrames)
    ensures old(caller.mm.pgd[pgn]).Present? ==>
              && fpn == old(caller.mm.pgd[pgn]).fpn
              && caller.mm.pgd[..] == old(caller.mm.pgd[..])
              && caller.mm.fifoPgn == old(caller.mm.fifoPgn)
              && caller.mram.freeFrames == old(caller.mram.freeFrames)
    ensures !old(caller.mm.pgd[pgn]).Present? && old(caller.mram.freeFrames) != multiset{} ==>
              && fpn in old(caller.mram.freeFrames)
              && caller.mram.freeFrames == old(caller.mram.freeFrames) - multiset{fpn}
              && caller.mm.pgd[..] == old(caller.mm.pgd[..])[pgn := Present(fpn)]
              && caller.mm.fifoPgn == Enlist(old(caller.mm.fifoPgn), pgn, caller.mm.pgnInsert)
    ensures !old(caller.mm.pgd[pgn]).Present? && old(caller.mram.freeFrames) == multiset{} && old(caller.mm.fifoPgn) != [] ==>
              var v := old(caller.mm.fifoPgn)[0];
              && v != pgn
              && fpn == old(caller.mm.pgd[v]).fpn
              && caller.mm.pgd[v] == Present(fpn)
              && caller.mram.freeFrames == old(caller.mram.freeFrames)
              && caller.mm.pgd[..] == old(caller.mm.pgd[..])[pgn := Present(fpn)]
              && caller.mm.fifoPgn == Enlist(old(caller.mm.fifoPgn)[1..], pgn, caller.mm.pgnInsert)
  {
    var mm := caller.mm;
    var pte := mm.pgd[pgn];
    if !pte.Present? {
      var r, newFpn := caller.mram.GetFreeFp();
      if r != 0 {
        var vr, victim := FindVictimPage(mm);
        if vr != 0 {
          return -1, 0;
        }
        assert old(mm.fifoPgn)[0] == victim;
        newFpn := mm.pgd[victim].fpn;
      }
      mm.pgd[pgn] := Present(newFpn);
      mm.fifoPgn := Enlist(mm.fifoPgn, pgn, mm.pgnInsert);
    }
    fpn := mm.pgd[pgn].fpn;
    ret := 0;
  }

  /** pg_getval: the byte at virtual address addr, through pg_getpage and a
      RAM read at frame * PAGING_PAGESZ + offset. */
  method PgGetVal(caller: Pcb, addr: nat) returns (ret: int, data: Byte)
    requires caller.mm.Valid() && Pgn(addr) < caller.mm.pgd.Length
    modifies caller.mm, caller.mm.pgd, caller.mram
    ensures caller.mm.Valid() && caller.mm.mmap == old(caller.mm.mmap)
    ensures ret == 0 || ret == -1
    ensures !old(PageObtainable(caller, Pgn(addr))) ==>
              ret == -1 && caller.mm.pgd[..] == old(caller.mm.pgd[..]) && caller.mm.fifoPgn == old(caller.mm.fifoPgn)
              && caller.mram.freeFrames == old(caller.mram.freeFrames)
    ensures old(PageObtainable(caller, Pgn(addr))) ==>
              && caller.mm.pgd[Pgn(addr)].Present?
              && var p := PhysAddr(caller.mm.pgd[Pgn(addr)].fpn, Offst(addr));
                 && (ret == 0 <==> p < caller.mram.storage.Length)
                 && (ret == 0 ==> data == caller.mram.storage[p])
    ensures old(caller.mm.pgd[Pgn(addr)]).Present? ==>
              caller.mm.pgd[..] == old(caller.mm.pgd[..]) && caller.mm.fifoPgn == old(caller.mm.fifoPgn)
              && caller.mram.freeFrames == old(caller.mram.freeFrames)
  {
    var pgn := Pgn(addr);
    var off := Offst(addr);
    var r, fpn := PgGetPage(caller, pgn);
    if r != 0 {
      return -1, 0;
    }
    var phyaddr := PhysAddr(fpn, off);
    ret, data := caller.mram.Read(phyaddr);
  }

  /** pg_setval: store value at virtual address addr, through pg_getpage and
      a RAM write at frame * PAGING_PAGESZ + offset. */
  method PgSetVal(caller: Pcb, addr: nat, value: Byte) returns (ret: int)
    requires caller.mm.Valid() && Pgn(addr) < caller.mm.pgd.Length
    modifies caller.mm, caller.mm.pgd, caller.mram, caller.mram.storage
    ensures caller.mm.Valid() && caller.mm.mmap == old(caller.mm.mmap)
    ensures ret == 0 || ret == -1
    ensures !old(PageObtainable(caller, Pgn(addr))) ==>
              ret == -1 && caller.mm.pgd[..] == old(caller.mm.pgd[..]) && caller.mm.fifoPgn == old(caller.mm.fifoPgn)
              && caller.mram.freeFrames == old(caller.mram.freeFrames)
              && caller.mram.storage[..] == old(caller.mram.storage[..])
    ensures old(PageObtainable(caller, Pgn(addr))) ==>
              && caller.mm.pgd[Pgn(addr)].Present?
              && var p := PhysAddr(caller.mm.pgd[Pgn(addr)].fpn, Offst(addr));
                 && (ret == 0 <==> p < caller.mram.storage.Length)
                 && (ret == 0 ==> caller.mram.storage[..] == old(caller.mram.storage[..])[p := value])
                 && (ret != 0 ==> caller.mram.storage[..] == old(caller.mram.storage[..]))
    ensures old(caller.mm.pgd[Pgn(addr)]).Present? ==>
              caller.mm.pgd[..] == old(caller.mm.pgd[..]) && caller.mm.fifoPgn == old(caller.mm.fifoPgn)
              && caller.mram.freeFrames == old(caller.mram.freeFrames)
  {
    var pgn := Pgn(addr);
    var off := Offst(addr);
    var r, fpn := PgGetPage(caller, pgn);
    if r != 0 {
      return -1;
    }
    var phyaddr := PhysAddr(fpn, off);
    ret := caller.mram.Write(phyaddr, value);
  }

  /** pg_setval at one address of a resident page, then pg_getval at
      another address of the same page: the second byte is the one the
      frame held before the write. */
  method SetThenGetOther(caller: Pcb, addr: nat, other: nat, value: Byte) returns (sret: int, gret: int, data: Byte)
    requires caller.mm.Valid() && Pgn(addr) < caller.mm.pgd.Length
    requires Pgn(other) == Pgn(addr) && other != addr && caller.mm.pgd[Pgn(addr)].Present?
    modifies caller.mm, caller.mm.pgd, caller.mram, caller.mram.storage
    ensures var p := PhysAddr(old(caller.mm.pgd[Pgn(addr)]).fpn, Offst(other));
            && (gret == 0 <==> p < caller.mram.storage.Length)
            && (gret == 0 ==> data == old(caller.mram.storage[p]))
  {
    ghost var fpn := caller.mm.pgd[Pgn(addr)].fpn;
    ghost var before := caller.mram.storage[..];
    sret := PgSetVal(caller, addr, value);
    SamePageDistinctBytes(fpn, addr, other);
    ghost var p := PhysAddr(fpn, Offst(other));
    assert p < caller.mram.storage.Length ==> caller.mram.storage[p] == before[p];
    gret, data := PgGetVal(caller, other);
  }

  /** The virtual address __read and __write touch: the slot's start plus
      the offset.  It must fall in a page of the page table. */
  ghost predicate AccessInRange(mm: MmStruct, rgid: int, offset: int)
    reads mm, mm.symrgtbl
    requires mm.symrgtbl.Length == PAGING_MAX_SYMTBL_SZ
  {
    GetSymrgById(rgid).Some? && mm.mmap != [] ==>
      var a := mm.symrgtbl[rgid].rgStart + offset;
      a >= 0 && Pgn(a) < mm.pgd.Length
  }

  /** __read: -1 for an id outside the table or a missing area, otherwise
      pg_getval at the slot's start plus offset.  Neither an empty slot nor
      an offset past the region's end is refused. */
  method Read(caller: Pcb, vmaid: int, rgid: int, offset: int) returns (ret: int, data: Byte)
    requires caller.mm.Valid() && VmaLookupDefined(caller.mm.mmap, vmaid)
    requires AccessInRange(caller.mm, rgid, offset)
    modifies caller.mm, caller.mm.pgd, caller.mram
    ensures caller.mm.Valid() && caller.mm.mmap == old(caller.mm.mmap)
    ensures ret == 0 || ret == -1
    ensures GetSymrgById(rgid).None? || old(caller.mm.mmap) == [] ==> ret == -1
    ensures GetSymrgById(rgid).Some? && old(caller.mm.mmap) != [] ==>
              var a := caller.mm.symrgtbl[rgid].rgStart + offset;
              && (!old(PageObtainable(caller, Pgn(a))) ==> ret == -1)
              && (old(caller.mm.pgd[Pgn(a)]).Present? ==> caller.mm.pgd[..] == old(caller.mm.pgd[..]))
              && (old(PageObtainable(caller, Pgn(a))) ==>
                    && caller.mm.pgd[Pgn(a)].Present?
                    && var p := PhysAddr(caller.mm.pgd[Pgn(a)].fpn, Offst(a));
                       && (ret == 0 <==> p < caller.mram.storage.Length)
                       && (ret == 0 ==> data == caller.mram.storage[p]))
  {
    var currg := GetSymrgById(rgid);
    var curVma := GetVmaByNum(caller.mm.mmap, vmaid);
    if currg.None? || curVma.None? {
      return -1, 0;
    }
    ret, data := PgGetVal(caller, caller.mm.symrgtbl[rgid].rgStart + offset);
  }

  /** __write: -1 for an id outside the table or a missing area; otherwise
      pg_setval at the slot's start plus offset, and 0 whatever pg_setval
      returned. */
  method Write(caller: Pcb, vmaid: int, rgid: int, offset: int, value: Byte) returns (ret: int)
    requires caller.mm.Valid() && VmaLookupDefined(caller.mm.mmap, vmaid)
    requires AccessInRange(caller.mm, rgid, offset)
    modifies caller.mm, caller.mm.pgd, caller.mram, caller.mram.storage
    ensures caller.mm.Valid() && caller.mm.mmap == old(caller.mm.mmap)
    ensures ret == 0 <==> GetSymrgById(rgid).Some? && old(caller.mm.mmap) != []
    ensures ret != 0 ==> ret == -1 && caller.mm.pgd[..] == old(caller.mm.pgd[..])
                         && caller.mram.storage[..] == old(caller.mram.storage[..])
    ensures ret == 0 ==>
              var a := caller.mm.symrgtbl[rgid].rgStart + offset;
              && (!old(PageObtainable(caller, Pgn(a))) ==>
                    caller.mm.pgd[..] == old(caller.mm.pgd[..]) && caller.mm.fifoPgn == old(caller.mm.fifoPgn)
                    && caller.mram.freeFrames == old(caller.mram.freeFrames)
                    && caller.mram.storage[..] == old(caller.mram.storage[..]))
              && (old(PageObtainable(caller, Pgn(a))) ==>
                    && caller.mm.pgd[Pgn(a)].Present?
                    && var p := PhysAddr(caller.mm.pgd[Pgn(a)].fpn, Offst(a));
                       caller.mram.storage[..] == if p < caller.mram.storage.Length
                                                  then old(caller.mram.storage[..])[p := value]
                                                  else old(caller.mram.storage[..]))
  {
    var currg := GetSymrgById(rgid);
    var curVma := GetVmaByNum(caller.mm.mmap, vmaid);
    if currg.None? || curVma.None? {
      return -1;
    }
    var _ := PgSetVal(caller, caller.mm.symrgtbl[rgid].rgStart + offset, value);
    ret := 0;
  }

  /** libread: __read on area 0; the destination takes the byte read, and
      keeps its old value when the read fails. */
  method LibRead(proc: Pcb, source: nat, offset: nat, destination: int) returns (ret: int, dest: int)
    requires proc.mm.Valid() && VmaLookupDefined(proc.mm.mmap, 0)
    requires AccessInRange(proc.mm, source, offset)
    modifies proc.mm, proc.mm.pgd, proc.mram
    ensures proc.mm.Valid() && proc.mm.mmap == old(proc.mm.mmap)
    ensures ret == 0 || ret == -1
    ensures source >= PAGING_MAX_SYMTBL_SZ || old(proc.mm.mmap) == [] ==> ret == -1
    ensures ret != 0 ==> dest == destination
    ensures ret == 0 ==> 0 <= dest < 256
    ensures source < PAGING_MAX_SYMTBL_SZ && old(proc.mm.mmap) != [] ==>
              var a := proc.mm.symrgtbl[source].rgStart + offset;
              && (!old(PageObtainable(proc, Pgn(a))) ==> ret == -1)
              && (old(proc.mm.pgd[Pgn(a)]).Present? ==> proc.mm.pgd[..] == old(proc.mm.pgd[..]))
              && (old(PageObtainable(proc, Pgn(a))) ==>
                    && proc.mm.pgd[Pgn(a)].Present?
                    && var p := PhysAddr(proc.mm.pgd[Pgn(a)].fpn, Offst(a));
                       && (ret == 0 <==> p < proc.mram.storage.Length)
                       && (ret == 0 ==> dest == proc.mram.storage[p] as int))
  {
    var data;
    ret, data := Read(proc, 0, source, offset);
    dest := if ret == 0 then data else destination;
  }

  /** libwrite: __write on area 0. */
  method LibWrite(proc: Pcb, data: Byte, destination: nat, offset: nat) returns (ret: int)
    requires proc.mm.Valid() && VmaLookupDefined(proc.mm.mmap, 0)
    requires AccessInRange(proc.mm, destination, offset)
    modifies proc.mm, proc.mm.pgd, proc.mram, proc.mram.storage
    ensures proc.mm.Valid() && proc.mm.mmap == old(proc.mm.mmap)
    ensures ret == 0 <==> destination < PAGING_MAX_SYMTBL_SZ && old(proc.mm.mmap) != []
    ensures ret != 0 ==> ret == -1 && proc.mm.pgd[..] == old(proc.mm.pgd[..])
                         && proc.mram.storage[..] == old(proc.mram.storage[..])
    ensures ret == 0 ==>
              var a := proc.mm.symrgtbl[destination].rgStart + offset;
              && (!old(PageObtainable(proc, Pgn(a))) ==>
                    proc.mm.pgd[..] == old(proc.mm.pgd[..]) && proc.mm.fifoPgn == old(proc.mm.fifoPgn)
                    && proc.mram.freeFrames == old(proc.mram.freeFrames)
                    && proc.mram.storage[..] == old(proc.mram.storage[..]))
              && (old(PageObtainable(proc, Pgn(a))) ==>
                    && proc.mm.pgd[Pgn(a)].Present?
                    && var p := PhysAddr(proc.mm.pgd[Pgn(a)].fpn, Offst(a));
                       proc.mram.storage[..] == if p < proc.mram.storage.Length
                                                then old(proc.mram.storage[..])[p := data]
                                                else old(proc.mram.storage[..]))
  {
    ret := Write(proc, 0, destination, offset, data);
  }

  /** Writing a byte at an offset of a region and reading the same offset
      back gives that byte whenever the read succeeds; an id outside the
      table fails both ways. */
  method WriteThenRead(caller: Pcb, rgid: int, offset: int, value: Byte) returns (wret: int, rret: int, data: Byte)
    requires caller.mm.Valid() && VmaLookupDefined(caller.mm.mmap, 0)
    requires AccessInRange(caller.mm, rgid, offset)
    modifies caller.mm, caller.mm.pgd, caller.mram, caller.mram.storage
    ensures GetSymrgById(rgid).None? ==> wret != 0 && rret != 0
    ensures rret == 0 ==> data == value
  {
    wret := Write(caller, 0, rgid, offset, value);
    rret, data := Read(caller, 0, rgid, offset);
  }

  /* ---------------------------------------------------------------- */
  /* Releasing a process's frames                                      */
  /* ---------------------------------------------------------------- */

  /** The free pools of RAM and SWAP, side by side. */
  datatype Pools = Pools(ram: multiset<nat>, swp: multiset<nat>)

  /** One page-table entry released as free_pcb_memph is written: an entry
      that is NOT present gives rawFpn(pte) to RAM, a present one gives
      rawSwp(pte) to SWAP.  rawFpn and rawSwp stand for the PTE bit-field
      macros, whose layout is not part of this model. */
  function ReleaseOneAsWritten(p: Pools, pte: Pte, rawFpn: Pte -> nat, rawSwp: Pte -> nat): (r: Pools)
    ensures |r.ram| + |r.swp| == |p.ram| + |p.swp| + 1
  {
    if !pte.Present? then p.(ram := p.ram + multiset{rawFpn(pte)})
    else p.(swp := p.swp + multiset{rawSwp(pte)})
  }

  /** One page-table entry released as intended: the frame of a present
      page goes to RAM, the offset of a swapped page to SWAP. */
  function ReleaseOne(p: Pools, pte: Pte): (r: Pools)
    ensures |r.ram| + |r.swp| == |p.ram| + |p.swp| + 1
  {
    match pte
    case Present(f) => p.(ram := p.ram + multiset{f})
    case Swapped(_, off) => p.(swp := p.swp + multiset{off})
  }

  /** The pools after the as-written release of every entry of ptes. */
  function ReleaseAllAsWritten(p: Pools, ptes: seq<Pte>, rawFpn: Pte -> nat, rawSwp: Pte -> nat): Pools
  {
    if ptes == [] then p
    else ReleaseOneAsWritten(ReleaseAllAsWritten(p, ptes[..|ptes| - 1], rawFpn, rawSwp), ptes[|ptes| - 1], rawFpn, rawSwp)
  }

  /** The pools after the intended release of every entry of ptes. */
  function ReleaseAll(p: Pools, ptes: seq<Pte>): Pools
  {
    if ptes == [] then p
    else ReleaseOne(ReleaseAll(p, ptes[..|ptes| - 1]), ptes[|ptes| - 1])
  }

  /** What the as-written release hands back, starting from empty pools. */
  function ReleasedAsWritten(ptes: seq<Pte>, rawFpn: Pte -> nat, rawSwp: Pte -> nat): Pools
  {
    ReleaseAllAsWritten(Pools(multiset{}, multiset{}), ptes, rawFpn, rawSwp)
  }

  /** What the intended release hands back, starting from empty pools. */
  function Released(ptes: seq<Pte>): Pools
  {
    ReleaseAll(Pools(multiset{}, multiset{}), ptes)
  }

  /** Releasing into non-empty pools adds the released frames to them:
      every entry gives back exactly one frame number. */
  lemma {:induction false} ReleaseAllAdds(p: Pools, ptes: seq<Pte>)
    ensures ReleaseAll(p, ptes) == Pools(p.ram + Released(ptes).ram, p.swp + Released(ptes).swp)
    ensures |Released(ptes).ram| + |Released(ptes).swp| == |ptes|
    decreases |ptes|
  {
    if ptes != [] {
      ReleaseAllAdds(p, ptes[..|ptes| - 1]);
      ReleaseAllAdds(Pools(multiset{}, multiset{}), ptes[..|ptes| - 1]);
    }
  }

  /** The same for the as-written release. */
  lemma {:induction false} ReleaseAllAsWrittenAdds(p: Pools, ptes: seq<Pte>, rawFpn: Pte -> nat, rawSwp: Pte -> nat)
    ensures var rel := ReleasedAsWritten(ptes, rawFpn, rawSwp);
            ReleaseAllAsWritten(p, ptes, rawFpn, rawSwp) == Pools(p.ram + rel.ram, p.swp + rel.swp)
    ensures var rel := ReleasedAsWritten(ptes, rawFpn, rawSwp);
            |rel.ram| + |rel.swp| == |ptes|
    decreases |ptes|
  {
    if ptes != [] {
      ReleaseAllAsWrittenAdds(p, ptes[..|ptes| - 1], rawFpn, rawSwp);
      ReleaseAllAsWrittenAdds(Pools(multiset{}, multiset{}), ptes[..|ptes| - 1], rawFpn, rawSwp);
    }
  }

  /** As written, a process whose pages are all resident gives no RAM
      frame back: the presence test is the wrong way round. */
  lemma {:induction false} AsWrittenKeepsResidentFrames(ptes: seq<Pte>, rawFpn: Pte -> nat, rawSwp: Pte -> nat)
    requires forall i :: 0 <= i < |ptes| ==> ptes[i].Present?
    ensures ReleasedAsWritten(ptes, rawFpn, rawSwp).ram == multiset{}
  {
    if ptes != [] {
      AsWrittenKeepsResidentFrames(ptes[..|ptes| - 1], rawFpn, rawSwp);
    }
  }

  /** The one-page counterexample: frame 7 stays allocated as written, and
      is returned by the intended release. */
  lemma AsWrittenLosesFrame7(rawFpn: Pte -> nat, rawSwp: Pte -> nat)
    ensures 7 !in ReleasedAsWritten([Present(7)], rawFpn, rawSwp).ram
    ensures Released([Present(7)]).ram == multiset{7}
  {
    assert [Present(7)][..0] == [];
  }

  /** The intended release returns to RAM exactly the frames of the
      resident pages. */
  lemma {:induction false} ReleasedRam(ptes: seq<Pte>, f: nat)
    ensures f in Released(ptes).ram <==> exists i :: 0 <= i < |ptes| && ptes[i] == Present(f)
  {
    if ptes != [] {
      var init := ptes[..|ptes| - 1];
      ReleasedRam(init, f);
      if exists i :: 0 <= i < |init| && init[i] == Present(f) {
        var i :| 0 <= i < |init| && init[i] == Present(f);
        assert ptes[i] == Present(f);
      }
      if exists i :: 0 <= i < |ptes| && ptes[i] == Present(f) {
        var i :| 0 <= i < |ptes| && ptes[i] == Present(f);
        if i < |ptes| - 1 {
          assert init[i] == Present(f);
        }
      }
    }
  }

  /** The intended release returns to SWAP exactly the offsets of the
      swapped pages. */
  lemma {:induction false} ReleasedSwap(ptes: seq<Pte>, f: nat)
    ensures f in Released(ptes).swp <==> exists i :: 0 <= i < |ptes| && ptes[i].Swapped? && ptes[i].swpOff == f
  {
    if ptes != [] {
      var init := ptes[..|ptes| - 1];
      ReleasedSwap(init, f);
      if exists i :: 0 <= i < |init| && init[i].Swapped? && init[i].swpOff == f {
        var i :| 0 <= i < |init| && init[i].Swapped? && init[i].swpOff == f;
        assert ptes[i] == init[i];
      }
      if exists i :: 0 <= i < |ptes| && ptes[i].Swapped? && ptes[i].swpOff == f {
        var i :| 0 <= i < |ptes| && ptes[i].Swapped? && ptes[i].swpOff == f;
        if i < |ptes| - 1 {
          assert init[i] == ptes[i];
        }
      }
    }
  }

  /** The body of the free_pcb_memph loop as written, for one entry. */
  method PutBackAsWritten(caller: Pcb, pte: Pte, rawFpn: Pte -> nat, rawSwp: Pte -> nat)
    requires caller.mram != caller.activeMswp
    modifies caller.mram, caller.activeMswp
    ensures Pools(caller.mram.freeFrames, caller.activeMswp.freeFrames) ==
            ReleaseOneAsWritten(old(Pools(caller.mram.freeFrames, caller.activeMswp.freeFrames)), pte, rawFpn, rawSwp)
  {
    if !pte.Present? {
      caller.mram.PutFreeFp(rawFpn(pte));
    } else {
      caller.activeMswp.PutFreeFp(rawSwp(pte));
    }
  }

  /** The body of the loop with the presence test the right way round. */
  method PutBack(caller: Pcb, pte: Pte)
    requires caller.mram != caller.activeMswp
    modifies caller.mram, caller.activeMswp
    ensures Pools(caller.mram.freeFrames, caller.activeMswp.freeFrames) ==
            ReleaseOne(old(Pools(caller.mram.freeFrames, caller.activeMswp.freeFrames)), pte)
  {
    match pte {
      case Present(f) => caller.mram.PutFreeFp(f);
      case Swapped(_, off) => caller.activeMswp.PutFreeFp(off);
    }
  }

  /** free_pcb_memph as written: every page-table entry gives a frame
      number to RAM or to SWAP according to the inverted presence test. */
  method FreePcbMemph(caller: Pcb, rawFpn: Pte -> nat, rawSwp: Pte -> nat) returns (ret: int)
    requires caller.mram != caller.activeMswp
    modifies caller.mram, caller.activeMswp
    ensures ret == 0
    ensures Pools(caller.mram.freeFrames, caller.activeMswp.freeFrames) ==
            ReleaseAllAsWritten(old(Pools(caller.mram.freeFrames, caller.activeMswp.freeFrames)), caller.mm.pgd[..], rawFpn, rawSwp)
  {
    var pgd := caller.mm.pgd;
    ghost var p0 := Pools(caller.mram.freeFrames, caller.activeMswp.freeFrames);
    var pagenum := 0;
    while pagenum < pgd.Length
      invariant 0 <= pagenum <= pgd.Length
      invariant Pools(caller.mram.freeFrames, caller.activeMswp.freeFrames) ==
                ReleaseAllAsWritten(p0, pgd[..pagenum], rawFpn, rawSwp)
    {
      assert pgd[..pagenum + 1][..pagenum] == pgd[..pagenum];
      PutBackAsWritten(caller, pgd[pagenum], rawFpn, rawSwp);
      pagenum := pagenum + 1;
    }
    assert pgd[..pgd.Length] == pgd[..];
    ret := 0;
  }

  /** free_pcb_memph with the presence test the right way round. */
  method FreePcbMemphCorrected(caller: Pcb) returns (ret: int)
    requires caller.mram != caller.activeMswp
    modifies caller.mram, caller.activeMswp
    ensures ret == 0
    ensures Pools(caller.mram.freeFrames, caller.activeMswp.freeFrames) ==
            ReleaseAll(old(Pools(caller.mram.freeFrames, caller.activeMswp.freeFrames)), caller.mm.pgd[..])
  {
    var pgd := caller.mm.pgd;
    ghost var p0 := Pools(caller.mram.freeFrames, caller.activeMswp.freeFrames);
    var pagenum := 0;
    while pagenum < pgd.Length
      invariant 0 <= pagenum <= pgd.Length
      invariant Pools(caller.mram.freeFrames, caller.activeMswp.freeFrames) == ReleaseAll(p0, pgd[..pagenum])
    {
      assert pgd[..pagenum + 1][..pagenum] == pgd[..pagenum];
      PutBack(caller, pgd[pagenum]);
      pagenum := pagenum + 1;
    }
    assert pgd[..pgd.Length] == pgd[..];
    ret := 0;
  }

  /* ---------------------------------------------------------------- */
  /* Victim order                                                      */
  /* ---------------------------------------------------------------- */

  /** fifo_pgn after pages ps are brought in one after another. */
  function EnlistAll(s: seq<int>, ps: seq<int>, ins: Insert): (r: seq<int>)
    ensures |r| == |s| + |ps|
    decreases |ps|
  {
    if ps == [] then s else EnlistAll(Enlist(s, ps[0], ins), ps[1..], ins)
  }

  /** Linking at the tail makes victim selection first-in first-out: the
      pages stand in the order they were brought in, so the first victim is
      the page brought in first. */
  lemma {:induction false} VictimOrderFifo(s: seq<int>, ps: seq<int>)
    ensures EnlistAll(s, ps, AtTail) == s + ps
    decreases |ps|
  {
    if ps != [] {
      VictimOrderFifo(s + [ps[0]], ps[1..]);
      assert s + [ps[0]] + ps[1..] == s + ps;
    }
  }

  /** Linking at the head makes it last-in first-out: the first victim is
      the page brought in last. */
  lemma {:induction false} VictimOrderLifo(s: seq<int>, ps: seq<int>)
    requires |ps| > 0
    ensures EnlistAll(s, ps, AtHead)[0] == ps[|ps| - 1]
    decreases |ps|
  {
    if |ps| > 1 {
      VictimOrderLifo([ps[0]] + s, ps[1..]);
    }
  }
}
