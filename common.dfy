/** Types and constants shared by the memory library, the process queue and
    the scheduler.  They stand for the structs and macros of the C headers
    (common.h, os-mm.h, mm.h, queue.h), which are not part of this model: only
    the fields the modelled code reads or writes are kept.  The physical
    store (mm-memphy.c, also not part of this model) appears as the class
    Memphy with the narrow contracts the modelled code relies on. */
module Common {

  datatype Option<T> = None | Some(value: T)

  /** Bytes per page and per frame. */
  const PAGING_PAGESZ: int := 256
  /** Number of slots of a process's region symbol table. */
  const PAGING_MAX_SYMTBL_SZ: int := 30
  /** Capacity of one process queue. */
  const MAX_QUEUE_SIZE: int := 10
  /** Number of priority levels of the multi-level queue. */
  const MAX_PRIO: int := 140

  type Byte = b: int | 0 <= b < 256

  /** A C string: the characters before its terminating NUL. */
  type CStr = s: string | forall i :: 0 <= i < |s| ==> s[i] != '\0'

  /** The page round-up used for area growth and by the visualiser:
      n itself when it is a whole number of pages, otherwise the next
      multiple of the page size (floor division, as in Python's //). */
  function RoundUpToPage(n: int): (r: int)
    ensures r % PAGING_PAGESZ == 0
    ensures n <= r < n + PAGING_PAGESZ
    ensures n % PAGING_PAGESZ == 0 ==> r == n
  {
    if n % PAGING_PAGESZ != 0 then (n / PAGING_PAGESZ + 1) * PAGING_PAGESZ else n
  }

  /** vm_rg_struct: the half-open virtual range [rgStart, rgEnd).  Used both
      as a free-list node and as a symbol-table slot; (0, 0) marks a free slot. */
  datatype Region = Region(rgStart: int, rgEnd: int)

  /** vm_area_struct, with its free-region list as a sequence in list order. */
  datatype VmArea = VmArea(vmId: int, vmStart: int, vmEnd: int, sbrk: int, freeList: seq<Region>)

  /** A page-table entry: resident in a RAM frame, or held in swap. */
  datatype Pte = Present(fpn: nat) | Swapped(swpType: nat, swpOff: nat)

  /** Where a list helper whose body is not part of this model
      (enlist_pgn_node, enlist_vm_rg_node) links a new node. */
  datatype Insert = AtHead | AtTail

  /** The list s after linking x at the place ins says. */
  function Enlist<T>(s: seq<T>, x: T, ins: Insert): seq<T>
  {
    if ins == AtHead then [x] + s else s + [x]
  }

  /** mm_struct: the area list, the symbol table, the page table and the
      list of resident page numbers used to pick a victim. */
  class MmStruct {
    var mmap: seq<VmArea>
    const symrgtbl: array<Region>
    const pgd: array<Pte>
    var fifoPgn: seq<int>
    const pgnInsert: Insert
    const rgInsert: Insert

    /** Every page on fifo_pgn is a page-table index whose entry is present. */
    ghost predicate Valid()
      reads this, pgd
    {
      && symrgtbl.Length == PAGING_MAX_SYMTBL_SZ
      && forall k :: 0 <= k < |fifoPgn| ==> 0 <= fifoPgn[k] < pgd.Length && pgd[fifoPgn[k]].Present?
    }

    /** The state init_mm leaves behind: area 0 with start = end = sbrk = 0
        and the single free node [0, 0), an all-free symbol table, no page
        resident and an empty fifo_pgn. */
    constructor Init(pages: nat, pgnIns: Insert, rgIns: Insert)
      ensures Valid() && fresh(symrgtbl) && fresh(pgd)
      ensures mmap == [VmArea(0, 0, 0, 0, [Region(0, 0)])]
      ensures symrgtbl[..] == seq(PAGING_MAX_SYMTBL_SZ, _ => Region(0, 0))
      ensures pgd[..] == seq(pages, _ => Swapped(0, 0))
      ensures fifoPgn == [] && pgnInsert == pgnIns && rgInsert == rgIns
    {
      mmap := [VmArea(0, 0, 0, 0, [Region(0, 0)])];
      symrgtbl := new Region[PAGING_MAX_SYMTBL_SZ](_ => Region(0, 0));
      pgd := new Pte[pages](_ => Swapped(0, 0));
      fifoPgn := [];
      pgnInsert := pgnIns;
      rgInsert := rgIns;
    }
  }

  /** memphy_struct: a byte store and its pool of free frame numbers. */
  class Memphy {
    const storage: array<Byte>
    var freeFrames: multiset<nat>

    constructor Init(size: nat, frames: multiset<nat>)
      ensures fresh(storage) && storage.Length == size && freeFrames == frames
    {
      storage := new Byte[size](_ => 0);
      freeFrames := frames;
    }

    /** MEMPHY_read: the byte at addr, or -1 outside the store. */
    method Read(addr: int) returns (ret: int, value: Byte)
      ensures ret == 0 <==> 0 <= addr < storage.Length
      ensures ret != 0 ==> ret == -1
      ensures ret == 0 ==> value == storage[addr]
    {
      if 0 <= addr < storage.Length {
        ret, value := 0, storage[addr];
      } else {
        ret, value := -1, 0;
      }
    }

    /** MEMPHY_write: store value at addr, or -1 outside the store. */
    method Write(addr: int, value: Byte) returns (ret: int)
      modifies storage
      ensures ret == 0 <==> 0 <= addr < storage.Length
      ensures ret != 0 ==> ret == -1
      ensures ret == 0 ==> storage[..] == old(storage[..])[addr := value]
      ensures ret != 0 ==> storage[..] == old(storage[..])
    {
      if 0 <= addr < storage.Length {
        storage[addr] := value;
        ret := 0;
      } else {
        ret := -1;
      }
    }

    /** MEMPHY_get_freefp: take some frame out of the free pool. */
    method GetFreeFp() returns (ret: int, fpn: nat)
      modifies this
      ensures ret == 0 <==> old(freeFrames) != multiset{}
      ensures ret != 0 ==> ret == -1 && freeFrames == old(freeFrames)
      ensures ret == 0 ==> fpn in old(freeFrames) && freeFrames == old(freeFrames) - multiset{fpn}
    {
      if freeFrames == multiset{} {
        ret, fpn := -1, 0;
      } else {
        fpn :| fpn in freeFrames;
        freeFrames := freeFrames - multiset{fpn};
        ret := 0;
      }
    }

    /** MEMPHY_put_freefp: return a frame to the free pool. */
    method PutFreeFp(fpn: nat)
      modifies this
      ensures freeFrames == old(freeFrames) + multiset{fpn}
    {
      freeFrames := freeFrames + multiset{fpn};
    }
  }

  /** queue_t: a bounded array of process pointers and its fill count. */
  class Queue {
    const proc: array<Pcb?>
    var size: int

    ghost predicate Valid()
      reads this, proc
    {
      && proc.Length == MAX_QUEUE_SIZE
      && 0 <= size <= MAX_QUEUE_SIZE
      && forall i :: 0 <= i < size ==> proc[i] != null
    }

    /** The queued processes, in array order. */
    ghost function Elems(): (s: seq<Pcb?>)
      reads this, proc
      requires Valid()
      ensures |s| == size
    {
      proc[..size]
    }

    constructor Init()
      ensures Valid() && fresh(proc) && Elems() == []
    {
      proc := new Pcb?[MAX_QUEUE_SIZE](_ => null);
      size := 0;
    }
  }

  /** The processes in s are all present (no NULL pointer). */
  ghost predicate NoNull(s: seq<Pcb?>)
  {
    forall i :: 0 <= i < |s| ==> s[i] != null
  }

  /** Distinct queue structs, each with its own array. */
  ghost predicate DistinctQueues(qs: seq<Queue>)
  {
    forall i, j :: 0 <= i < j < |qs| ==> qs[i] != qs[j] && qs[i].proc != qs[j].proc
  }

  /** pcb_t: the fields of a process that the modelled code uses. */
  class Pcb {
    const pid: int
    const prio: nat
    const path: CStr
    const mm: MmStruct
    const mram: Memphy
    const activeMswp: Memphy
    var readyQueue: Queue?
    var runningList: Queue?
    var mlqReadyQueue: Option<seq<Queue>>

    constructor Init(pid: int, prio: nat, path: CStr, mm: MmStruct, mram: Memphy, mswp: Memphy)
      ensures this.pid == pid && this.prio == prio && this.path == path
      ensures this.mm == mm && this.mram == mram && this.activeMswp == mswp
      ensures readyQueue == null && runningList == null && mlqReadyQueue == None
    {
      this.pid := pid;
      this.prio := prio;
      this.path := path;
      this.mm := mm;
      this.mram := mram;
      this.activeMswp := mswp;
      readyQueue := null;
      runningList := null;
      mlqReadyQueue := None;
    }
  }
}
