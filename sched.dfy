/** The scheduler of sched.c.  In the multi-level build there is one
    queue per priority value; a process is queued at the level of its prio
    and get_proc serves the lowest-numbered non-empty level.  The single
    build uses ready_queue and run_queue only.  The queue lock is not
    modelled. */
module Sched {
  import opened Common
  import opened QueueOps

  /** Every process on queue q holds prio i. */
  ghost predicate LevelOk(q: Queue, i: int)
    reads q, q.proc
  {
    q.Valid() && forall k :: 0 <= k < q.size ==> q.proc[k].prio == i
  }

  /** dequeue on a non-empty queue whose processes all hold prio i: the
      head comes out, first in first out. */
  method DequeueSamePrio(q: Queue, i: int) returns (proc: Pcb?)
    requires LevelOk(q, i) && q.size > 0
    modifies q, q.proc
    ensures LevelOk(q, i)
    ensures proc == old(q.Elems())[0]
    ensures q.Elems() == old(q.Elems())[1..]
  {
    ghost var s := q.Elems();
    assert forall k :: 0 <= k < |s| ==> s[k].prio == i;
    SamePrioPicksHead(s);
    proc := Dequeue(q);
    assert RemoveAt(s, 0) == s[1..] by {
      assert s[..0] == [];
    }
    forall k | 0 <= k < q.size
      ensures q.proc[k].prio == i
    {
      assert q.proc[k] == q.Elems()[k] == s[k + 1];
    }
  }

  /** The static queues of sched.c: ready_queue, run_queue, running_list,
      mlq_ready_queue[MAX_PRIO] and the slot table. */
  class Scheduler {
    const readyQueue: Queue
    const runQueue: Queue
    const runningList: Queue
    const mlq: seq<Queue>
    const slot: array<int>

    /** The level queues and their arrays. */
    ghost function MlqRepr(): set<object>
    {
      (set i | 0 <= i < |mlq| :: mlq[i] as object) + (set i | 0 <= i < |mlq| :: mlq[i].proc as object)
    }

    /** The fixed layout: MAX_PRIO levels and slots, and no two queues
        sharing a struct or an array.  It
        reads only constant fields, so no update can break it. */
    ghost predicate Shape()
    {
      && |mlq| == MAX_PRIO
      && slot.Length == MAX_PRIO
      && readyQueue != runQueue && readyQueue != runningList && runQueue != runningList
      && readyQueue.proc != runQueue.proc && readyQueue.proc != runningList.proc && runQueue.proc != runningList.proc
      && (forall i :: 0 <= i < |mlq| ==>
            mlq[i] !in {readyQueue, runQueue, runningList} &&
            mlq[i].proc !in {readyQueue.proc, runQueue.proc, runningList.proc})
      && DistinctQueues(mlq)
    }

    /** The layout holds, every queue is well formed and every process on
        level i has prio i. */
    ghost predicate Valid()
      reads this, readyQueue, readyQueue.proc, runQueue, runQueue.proc
      reads runningList, runningList.proc, MlqRepr()
    {
      && Shape()
      && readyQueue.Valid() && runQueue.Valid() && runningList.Valid()
      && (forall i :: 0 <= i < |mlq| ==> LevelOk(mlq[i], i))
    }

    /** The lowest-numbered level from k on that holds a process. */
    ghost function FirstReadyFrom(k: nat): (r: Option<nat>)
      requires k <= |mlq|
      reads this, MlqRepr()
      ensures r.None? <==> forall i :: k <= i < |mlq| ==> mlq[i].size == 0
      ensures r.Some? ==> k <= r.value < |mlq| && mlq[r.value].size != 0
      ensures r.Some? ==> forall i :: k <= i < r.value ==> mlq[i].size == 0
      decreases |mlq| - k
    {
      if k == |mlq| then None
      else
        assert mlq[k] in MlqRepr();
        if mlq[k].size != 0 then Some(k) else FirstReadyFrom(k + 1)
    }

    /** MAX_PRIO new, empty, pairwise distinct level queues. */
    static method NewLevels() returns (levels: seq<Queue>)
      ensures |levels| == MAX_PRIO && DistinctQueues(levels)
      ensures forall j :: 0 <= j < |levels| ==>
                fresh(levels[j]) && fresh(levels[j].proc) && levels[j].Valid() && levels[j].size == 0
    {
      levels := [];
      while |levels| < MAX_PRIO
        invariant |levels| <= MAX_PRIO
        invariant forall j :: 0 <= j < |levels| ==>
                    fresh(levels[j]) && fresh(levels[j].proc) && levels[j].Valid() && levels[j].size == 0
        invariant DistinctQueues(levels)
      {
        var q := new Queue.Init();
        levels := levels + [q];
      }
    }

    /** Statically allocated queues: every queue empty, slots zero. */
    constructor Init()
      ensures Valid() && fresh(slot)
      ensures fresh(readyQueue) && fresh(runQueue) && fresh(runningList)
      ensures forall i :: 0 <= i < |mlq| ==> fresh(mlq[i]) && fresh(mlq[i].proc)
      ensures readyQueue.size == 0 && runQueue.size == 0 && runningList.size == 0
      ensures forall i :: 0 <= i < |mlq| ==> mlq[i].size == 0
    {
      var levels := NewLevels();
      var r := new Queue.Init();
      var u := new Queue.Init();
      var l := new Queue.Init();
      readyQueue, runQueue, runningList := r, u, l;
      mlq := levels;
      slot := new int[MAX_PRIO](_ => 0);
      new;
      forall i | 0 <= i < |levels|
        ensures levels[i] !in {r, u, l} && levels[i].proc !in {r.proc, u.proc, l.proc}
        ensures LevelOk(levels[i], i)
      {
      }
      assert Shape();
    }

    /** init_scheduler: empty every level and the ready and run queues, and
        set slot[i] to MAX_PRIO - i.  The running list is left alone. */
    method InitScheduler()
      requires Valid()
      modifies MlqRepr(), slot, readyQueue, runQueue
      ensures Valid()
      ensures forall i :: 0 <= i < |mlq| ==> mlq[i].size == 0
      ensures readyQueue.size == 0 && runQueue.size == 0
      ensures slot[..] == seq(MAX_PRIO, i => MAX_PRIO - i)
      ensures runningList.size == old(runningList.size) && runningList.proc[..] == old(runningList.proc[..])
    {
      var i := 0;
      while i < MAX_PRIO
        invariant 0 <= i <= MAX_PRIO
        invariant Valid()
        invariant forall j :: 0 <= j < i ==> mlq[j].size == 0
        invariant forall j :: 0 <= j < i ==> slot[j] == MAX_PRIO - j
        invariant runningList.size == old(runningList.size) && runningList.proc[..] == old(runningList.proc[..])
      {
        mlq[i].size := 0;
        slot[i] := MAX_PRIO - i;
        i := i + 1;
      }
      readyQueue.size := 0;
      runQueue.size := 0;
    }

    /** queue_empty (multi-level build): -1 as soon as some level holds a
        process; otherwise 1 when ready_queue and run_queue are both empty,
        else 0. */
    method QueueEmpty() returns (r: int)
      requires Valid()
      ensures (exists i :: 0 <= i < |mlq| && mlq[i].size != 0) ==> r == -1
      ensures (forall i :: 0 <= i < |mlq| ==> mlq[i].size == 0) ==>
                r == (if readyQueue.size == 0 && runQueue.size == 0 then 1 else 0)
    {
      var prio := 0;
      while prio < MAX_PRIO
        invariant 0 <= prio <= MAX_PRIO
        invariant forall j :: 0 <= j < prio ==> mlq[j].size == 0
      {
        if Empty(mlq[prio]) == 0 {
          return -1;
        }
        prio := prio + 1;
      }
      r := if Empty(readyQueue) == 1 && Empty(runQueue) == 1 then 1 else 0;
    }

    /** queue_empty (single build): 1 when ready_queue and run_queue are
        both empty, else 0. */
    function QueueEmptyNoMlq(): (r: int)
      reads this, readyQueue, runQueue
      ensures r == 1 <==> readyQueue.size == 0 && runQueue.size == 0
      ensures r == 0 || r == 1
    {
      if Empty(readyQueue) == 1 && Empty(runQueue) == 1 then 1 else 0
    }

    /** Valid survives a change that leaves every level but level k alone,
        keeps level k (if any) consistent and the three other queues well
        formed. */
    twostate lemma ValidAfter(k: int)
      requires old(Valid())
      requires readyQueue.Valid() && runQueue.Valid() && runningList.Valid()
      requires forall i :: 0 <= i < |mlq| && i != k ==> unchanged(mlq[i], mlq[i].proc)
      requires 0 <= k < |mlq| ==> LevelOk(mlq[k], k)
      ensures Valid()
    {
      forall i | 0 <= i < |mlq|
        ensures LevelOk(mlq[i], i)
      {
        if i != k {
          assert old(LevelOk(mlq[i], i));
        }
      }
    }

    /** dequeue on level i, which is not empty: since every process there
        has prio i, the head comes out. */
    method DequeueLevel(i: nat) returns (proc: Pcb?)
      requires Valid() && i < |mlq| && mlq[i].size > 0
      modifies mlq[i], mlq[i].proc
      ensures Valid()
      ensures proc == old(mlq[i].Elems())[0]
      ensures mlq[i].Elems() == old(mlq[i].Elems())[1..]
    {
      proc := DequeueSamePrio(mlq[i], i);
      ValidAfter(i);
    }

    /** get_mlq_proc: NULL when every level is empty; otherwise the head of
        the lowest-numbered non-empty level, which loses it.  No other
        level changes. */
    method GetMlqProc() returns (proc: Pcb?)
      requires Valid()
      modifies MlqRepr()
      ensures Valid()
      ensures old(FirstReadyFrom(0)).None? ==> proc == null
      ensures forall i :: 0 <= i < |mlq| && Some(i) != old(FirstReadyFrom(0)) ==>
                mlq[i].size == old(mlq[i].size) && mlq[i].proc[..] == old(mlq[i].proc[..])
      ensures old(FirstReadyFrom(0)).Some? ==>
                var i := old(FirstReadyFrom(0)).value;
                && proc == old(mlq[i].Elems())[0]
                && mlq[i].Elems() == old(mlq[i].Elems())[1..]
    {
      var i := 0;
      while i < MAX_PRIO
        invariant 0 <= i <= MAX_PRIO
        invariant forall j :: 0 <= j < i ==> mlq[j].size == 0
      {
        if Empty(mlq[i]) == 0 {
          assert FirstReadyFrom(0) == Some(i);
          proc := DequeueLevel(i);
          return;
        }
        i := i + 1;
      }
      proc := null;
    }

    /** put_mlq_proc: append proc to the level of its prio (ignored when
        that level is full); no other level changes. */
    method PutMlqProc(proc: Pcb)
      requires Valid() && proc.prio < MAX_PRIO
      modifies mlq[proc.prio], mlq[proc.prio].proc
      ensures Valid()
      ensures mlq[proc.prio].Elems() == if old(mlq[proc.prio].size) == MAX_QUEUE_SIZE then old(mlq[proc.prio].Elems())
                                        else old(mlq[proc.prio].Elems()) + [proc]
      ensures forall i :: 0 <= i < |mlq| && i != proc.prio ==> mlq[i].size == old(mlq[i].size)
    {
      Enqueue(mlq[proc.prio], proc);
    }

    /** add_mlq_proc: the same as put_mlq_proc. */
    method AddMlqProc(proc: Pcb)
      requires Valid() && proc.prio < MAX_PRIO
      modifies mlq[proc.prio], mlq[proc.prio].proc
      ensures Valid()
      ensures mlq[proc.prio].Elems() == if old(mlq[proc.prio].size) == MAX_QUEUE_SIZE then old(mlq[proc.prio].Elems())
                                        else old(mlq[proc.prio].Elems()) + [proc]
      ensures forall i :: 0 <= i < |mlq| && i != proc.prio ==> mlq[i].size == old(mlq[i].size)
    {
      Enqueue(mlq[proc.prio], proc);
    }

    /** get_proc (multi-level build). */
    method GetProc() returns (proc: Pcb?)
      requires Valid()
      modifies MlqRepr()
      ensures Valid()
      ensures old(FirstReadyFrom(0)).None? ==> proc == null
      ensures forall i :: 0 <= i < |mlq| && Some(i) != old(FirstReadyFrom(0)) ==>
                mlq[i].size == old(mlq[i].size) && mlq[i].proc[..] == old(mlq[i].proc[..])
      ensures old(FirstReadyFrom(0)).Some? ==>
                var i := old(FirstReadyFrom(0)).value;
                && proc == old(mlq[i].Elems())[0]
                && mlq[i].Elems() == old(mlq[i].Elems())[1..]
    {
      proc := GetMlqProc();
    }

    /** put_proc (multi-level build): point the process at the scheduler's
        queues, then put_mlq_proc. */
    method PutProc(proc: Pcb)
      requires Valid() && proc.prio < MAX_PRIO
      modifies proc, mlq[proc.prio], mlq[proc.prio].proc
      ensures Valid()
      ensures proc.readyQueue == readyQueue && proc.runningList == runningList && proc.mlqReadyQueue == Some(mlq)
      ensures mlq[proc.prio].Elems() == if old(mlq[proc.prio].size) == MAX_QUEUE_SIZE then old(mlq[proc.prio].Elems())
                                        else old(mlq[proc.prio].Elems()) + [proc]
      ensures forall i :: 0 <= i < |mlq| && i != proc.prio ==> mlq[i].size == old(mlq[i].size)
    {
      proc.readyQueue := readyQueue;
      proc.mlqReadyQueue := Some(mlq);
      proc.runningList := runningList;
      PutMlqProc(proc);
    }

    /** add_proc (multi-level build): as put_proc, through add_mlq_proc. */
    method AddProc(proc: Pcb)
      requires Valid() && proc.prio < MAX_PRIO
      modifies proc, mlq[proc.prio], mlq[proc.prio].proc
      ensures Valid()
      ensures proc.readyQueue == readyQueue && proc.runningList == runningList && proc.mlqReadyQueue == Some(mlq)
      ensures mlq[proc.prio].Elems() == if old(mlq[proc.prio].size) == MAX_QUEUE_SIZE then old(mlq[proc.prio].Elems())
                                        else old(mlq[proc.prio].Elems()) + [proc]
      ensures forall i :: 0 <= i < |mlq| && i != proc.prio ==> mlq[i].size == old(mlq[i].size)
    {
      proc.readyQueue := readyQueue;
      proc.mlqReadyQueue := Some(mlq);
      proc.runningList := runningList;
      AddMlqProc(proc);
    }

    /** add_proc twice on an empty level: the level then holds the two
        processes in order, and no other level changes. */
    method AddTwo(p1: Pcb, p2: Pcb)
      requires Valid() && p1.prio == p2.prio < MAX_PRIO
      requires mlq[p1.prio].size == 0
      modifies p1, p2, mlq[p1.prio], mlq[p1.prio].proc
      ensures Valid()
      ensures mlq[p1.prio].Elems() == [p1, p2]
      ensures forall i :: 0 <= i < |mlq| && i != p1.prio ==> mlq[i].size == old(mlq[i].size)
    {
      AddProc(p1);
      AddProc(p2);
    }

    /** Two processes of one prio added to an idle scheduler come out in
        the order they were added. */
    method SamePrioOrder(p1: Pcb, p2: Pcb) returns (first: Pcb?, second: Pcb?)
      requires Valid() && p1.prio == p2.prio < MAX_PRIO
      requires forall i :: 0 <= i < |mlq| ==> mlq[i].size == 0
      modifies p1, p2, MlqRepr()
      ensures first == p1 && second == p2
    {
      var prio := p1.prio;
      AddTwo(p1, p2);
      assert FirstReadyFrom(0) == Some(prio);
      first := GetProc();
      assert mlq[prio].Elems() == [p2];
      assert forall i :: 0 <= i < prio ==> mlq[i].size == 0;
      assert FirstReadyFrom(0) == Some(prio);
      second := GetProc();
    }

    /** get_proc (single build): dequeue from ready_queue. */
    method GetProcNoMlq() returns (proc: Pcb?)
      requires Valid()
      modifies readyQueue, readyQueue.proc
      ensures Valid()
      ensures old(readyQueue.size) == 0 ==> proc == null && readyQueue.Elems() == old(readyQueue.Elems())
      ensures old(readyQueue.size) > 0 ==>
                var s := old(readyQueue.Elems());
                proc == s[MinPrioIndex(s)] && readyQueue.Elems() == RemoveAt(s, MinPrioIndex(s))
    {
      proc := Dequeue(readyQueue);
      ValidAfter(-1);
    }

    /** put_proc (single build): point the process at ready_queue and the
        running list, then append it to run_queue. */
    method PutProcNoMlq(proc: Pcb)
      requires Valid()
      modifies proc, runQueue, runQueue.proc
      ensures Valid()
      ensures proc.readyQueue == readyQueue && proc.runningList == runningList
      ensures proc.mlqReadyQueue == old(proc.mlqReadyQueue)
      ensures runQueue.Elems() == if old(runQueue.size) == MAX_QUEUE_SIZE then old(runQueue.Elems())
                                  else old(runQueue.Elems()) + [proc]
    {
      proc.readyQueue := readyQueue;
      proc.runningList := runningList;
      Enqueue(runQueue, proc);
    }

    /** add_proc (single build): point the process at ready_queue and the
        running list, then append it to ready_queue. */
    method AddProcNoMlq(proc: Pcb)
      requires Valid()
      modifies proc, readyQueue, readyQueue.proc
      ensures Valid()
      ensures proc.readyQueue == readyQueue && proc.runningList == runningList
      ensures proc.mlqReadyQueue == old(proc.mlqReadyQueue)
      ensures readyQueue.Elems() == if old(readyQueue.size) == MAX_QUEUE_SIZE then old(readyQueue.Elems())
                                    else old(readyQueue.Elems()) + [proc]
    {
      proc.readyQueue := readyQueue;
      proc.runningList := runningList;
      Enqueue(readyQueue, proc);
    }
  }
}
