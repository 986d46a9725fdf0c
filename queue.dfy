/** The bounded process queue of queue.c: an array of at most
    MAX_QUEUE_SIZE process pointers and a fill count.  Enqueue appends;
    dequeue takes out the process with the smallest prio value (the
    earliest of them on a tie) and closes the gap. */
module QueueOps {
  import opened Common

  /** empty: 1 for a NULL queue or one holding nothing, 0 otherwise. */
  function Empty(q: Queue?): (r: int)
    reads q
    ensures r == 0 || r == 1
    ensures r == 1 <==> q == null || q.size == 0
  {
    if q == null then 1 else if q.size == 0 then 1 else 0
  }

  /** The index dequeue picks in s: a smallest prio, the first such. */
  function MinPrioIndex(s: seq<Pcb?>): (k: nat)
    requires |s| > 0 && NoNull(s)
    ensures k < |s|
    ensures forall j :: 0 <= j < |s| ==> s[k].prio <= s[j].prio
    ensures forall j :: 0 <= j < k ==> s[j].prio > s[k].prio
    decreases |s|
  {
    if |s| == 1 then 0
    else
      var k := MinPrioIndex(s[..|s| - 1]);
      if s[|s| - 1].prio < s[k].prio then |s| - 1 else k
  }

  /** The two properties of MinPrioIndex single out one index. */
  lemma MinPrioIndexUnique(s: seq<Pcb?>, k: nat)
    requires |s| > 0 && NoNull(s) && k < |s|
    requires forall j :: 0 <= j < |s| ==> s[k].prio <= s[j].prio
    requires forall j :: 0 <= j < k ==> s[j].prio > s[k].prio
    ensures k == MinPrioIndex(s)
  {
  }

  /** Among processes of one prio, dequeue picks the head: the queue is
      then first-in first-out. */
  lemma SamePrioPicksHead(s: seq<Pcb?>)
    requires |s| > 0 && NoNull(s)
    requires forall j :: 0 <= j < |s| ==> s[j].prio == s[0].prio
    ensures MinPrioIndex(s) == 0
  {
    MinPrioIndexUnique(s, 0);
  }

  /** s without its element at index k, the others in their order. */
  function RemoveAt<T>(s: seq<T>, k: nat): (r: seq<T>)
    requires k < |s|
    ensures |r| == |s| - 1
  {
    s[..k] + s[k + 1..]
  }

  /** RemoveAt keeps the entries before k and moves the later ones down
      one place. */
  lemma RemoveAtShape<T>(s: seq<T>, k: nat)
    requires k < |s|
    ensures var r := RemoveAt(s, k);
            && (forall j :: 0 <= j < k ==> r[j] == s[j])
            && (forall j :: k <= j < |r| ==> r[j] == s[j + 1])
  {
  }

  /** RemoveAt loses exactly one copy of s[k] and nothing else. */
  lemma RemoveAtMultiset<T>(s: seq<T>, k: nat)
    requires k < |s|
    ensures multiset(RemoveAt(s, k)) + multiset{s[k]} == multiset(s)
  {
    assert s == s[..k] + [s[k]] + s[k + 1..];
  }

  /** enqueue: a full queue is left as it is; otherwise proc is stored at
      index size and size grows by one. */
  method Enqueue(q: Queue, proc: Pcb)
    requires q.Valid()
    modifies q, q.proc
    ensures q.Valid()
    ensures old(q.size) == MAX_QUEUE_SIZE ==> q.Elems() == old(q.Elems())
    ensures old(q.size) < MAX_QUEUE_SIZE ==> q.Elems() == old(q.Elems()) + [proc]
    ensures q.proc[..] == if old(q.size) == MAX_QUEUE_SIZE then old(q.proc[..])
                          else old(q.proc[..])[old(q.size) := proc]
  {
    if q.size == MAX_QUEUE_SIZE {
      return;
    }
    q.proc[q.size] := proc;
    q.size := q.size + 1;
  }

  /** The scan of dequeue: the index of the first process of smallest
      prio among the queued ones. */
  method FindHighestPriority(q: Queue) returns (highPriIdx: nat)
    requires q.Valid() && q.size > 0
    ensures highPriIdx == MinPrioIndex(q.Elems())
  {
    ghost var s := q.Elems();
    var highPri := q.proc[0].prio;
    highPriIdx := 0;
    var i := 1;
    while i < q.size
      invariant 1 <= i <= q.size
      invariant highPriIdx == MinPrioIndex(s[..i])
      invariant highPri == q.proc[highPriIdx].prio
    {
      assert s[..i + 1][..i] == s[..i];
      if q.proc[i].prio < highPri {
        highPri := q.proc[i].prio;
        highPriIdx := i;
      }
      i := i + 1;
    }
    assert s[..q.size] == s;
  }

  /** The shift loop of dequeue: a[k+1..n) moves one place to the left,
      so a[..n-1] becomes a[..n] without its entry k. */
  method ShiftLeft<T>(a: array<T>, k: nat, n: nat)
    requires k < n <= a.Length
    modifies a
    ensures a[..n - 1] == RemoveAt(old(a[..n]), k)
  {
    ghost var s := a[..n];
    ghost var r := RemoveAt(s, k);
    RemoveAtShape(s, k);
    var i := k;
    while i < n - 1
      invariant k <= i < n
      invariant forall j {:trigger a[j]} :: 0 <= j < i ==> a[j] == r[j]
      invariant forall j {:trigger a[j]} :: i <= j < n ==> a[j] == s[j]
    {
      a[i] := a[i + 1];
      i := i + 1;
    }
    assert a[..n - 1] == r;
  }

  /** The removal step of dequeue: the entries after index k move one
      place to the left and size shrinks by one. */
  method RemoveShift(q: Queue, k: nat)
    requires q.Valid() && k < q.size
    modifies q, q.proc
    ensures q.Valid()
    ensures q.Elems() == RemoveAt(old(q.Elems()), k)
  {
    ghost var s := q.Elems();
    RemoveAtShape(s, k);
    assert NoNull(RemoveAt(s, k)) by {
      assert NoNull(s);
    }
    ShiftLeft(q.proc, k, q.size);
    q.size := q.size - 1;
  }

  /** dequeue: NULL (and no change) for a NULL or empty queue; otherwise the
      process at MinPrioIndex, removed with the later ones shifted one place
      to the left. */
  method Dequeue(q: Queue?) returns (p: Pcb?)
    requires q != null ==> q.Valid()
    modifies if q != null then {q, q.proc} else {}
    ensures q != null ==> q.Valid()
    ensures q == null || old(q.size) == 0 ==> p == null
    ensures q != null && old(q.size) == 0 ==> q.Elems() == old(q.Elems())
    ensures q != null && old(q.size) > 0 ==>
              var s := old(q.Elems());
              var k := MinPrioIndex(s);
              && p == s[k]
              && q.Elems() == RemoveAt(s, k)
  {
    if Empty(q) == 1 {
      return null;
    }
    var highPriIdx := FindHighestPriority(q);
    p := q.proc[highPriIdx];
    RemoveShift(q, highPriIdx);
  }
}
