/** The kill-all system call of sys_killall.c: a case-insensitive substring
    test on process paths, and the in-place removal of every matching
    process from the running list and from each level of the multi-level
    ready queue. */
module KillAll {
  import opened Common
  import opened QueueOps

  /** tolower in the C locale: only 'A'..'Z' change. */
  function ToLower(c: char): char
  {
    if 'A' <= c <= 'Z' then (c as int + 32) as char else c
  }

  /** sub occurs in path at position p, letter case ignored. */
  ghost predicate MatchAt(path: CStr, sub: CStr, p: nat)
  {
    && p + |sub| <= |path|
    && forall i :: 0 <= i < |sub| ==> ToLower(path[p + i]) == ToLower(sub[i])
  }

  /** What path_contains decides: both strings are present, sub is not
      empty, and sub occurs somewhere in path ignoring case.  A missing
      string stands for a NULL pointer. */
  ghost predicate Contains(path: Option<CStr>, sub: Option<CStr>)
  {
    && path.Some? && sub.Some? && |sub.value| > 0
    && exists p :: 0 <= p < |path.value| && MatchAt(path.value, sub.value, p)
  }

  /** The inner loop of path_contains: how many leading characters of sub
      match path from position p on, stopping at the first mismatch or at
      the end of path. */
  method MatchLength(path: CStr, sub: CStr, p: nat) returns (i: nat)
    requires p < |path|
    ensures i <= |sub| && p + i <= |path|
    ensures forall k :: 0 <= k < i ==> ToLower(path[p + k]) == ToLower(sub[k])
    ensures i == |sub| <==> MatchAt(path, sub, p)
  {
    i := 0;
    while i < |sub| && p + i < |path|
      invariant i <= |sub| && p + i <= |path|
      invariant forall k :: 0 <= k < i ==> ToLower(path[p + k]) == ToLower(sub[k])
    {
      if ToLower(path[p + i]) != ToLower(sub[i]) {
        return;
      }
      i := i + 1;
    }
  }

  /** path_contains: 1 when Contains holds, 0 otherwise (so 0 for an empty
      sub as well). */
  method PathContains(path: Option<CStr>, sub: Option<CStr>) returns (r: int)
    ensures r == 0 || r == 1
    ensures r == 1 <==> Contains(path, sub)
  {
    if path.None? || sub.None? {
      return 0;
    }
    var s, t := path.value, sub.value;
    if |t| == 0 {
      return 0;
    }
    var p := 0;
    while p < |s|
      invariant p <= |s|
      invariant forall q :: 0 <= q < p ==> !MatchAt(s, t, q)
    {
      if ToLower(s[p]) == ToLower(t[0]) {
        var i := MatchLength(s, t, p);
        if i == |t| {
          return 1;
        }
      }
      p := p + 1;
    }
    return 0;
  }

  /** Two strings that differ at most in letter case. */
  ghost predicate SameUpToCase(a: CStr, b: CStr)
  {
    |a| == |b| && forall i :: 0 <= i < |a| ==> ToLower(a[i]) == ToLower(b[i])
  }

  /** Changing the letter case of either argument does not change the
      outcome of the test. */
  lemma ContainsIgnoresCase(a: CStr, a': CStr, s: CStr, s': CStr)
    requires SameUpToCase(a, a') && SameUpToCase(s, s')
    ensures Contains(Some(a), Some(s)) <==> Contains(Some(a'), Some(s'))
  {
    forall p | 0 <= p < |a|
      ensures MatchAt(a, s, p) <==> MatchAt(a', s', p)
    {
      if p + |s| <= |a| {
        forall i | 0 <= i < |s|
          ensures ToLower(a[p + i]) == ToLower(s[i]) <==> ToLower(a'[p + i]) == ToLower(s'[i])
        {
          assert ToLower(a[p + i]) == ToLower(a'[p + i]);
        }
      }
    }
  }

  /** An empty name matches nothing, so killall with it kills no process. */
  lemma EmptyNameMatchesNothing(path: Option<CStr>)
    ensures !Contains(path, Some(""))
  {
  }

  /** The process is present and its path contains name. */
  ghost predicate Doomed(p: Pcb?, name: CStr)
  {
    p != null && Contains(Some(p.path), Some(name))
  }

  /** The processes of s that survive, in their original order. */
  ghost function Survivors(s: seq<Pcb?>, name: CStr): (r: seq<Pcb?>)
    ensures |r| <= |s|
  {
    if s == [] then []
    else
      var rest := Survivors(s[..|s| - 1], name);
      if Doomed(s[|s| - 1], name) then rest else rest + [s[|s| - 1]]
  }

  /** The processes of s that are killed, in their original order. */
  ghost function Killed(s: seq<Pcb?>, name: CStr): seq<Pcb?>
  {
    if s == [] then []
    else
      var rest := Killed(s[..|s| - 1], name);
      if Doomed(s[|s| - 1], name) then rest + [s[|s| - 1]] else rest
  }

  /** Survivors are exactly the processes of s that do not match: none that
      matches is kept and none that does not is lost. */
  lemma {:induction false} SurvivorsMembers(s: seq<Pcb?>, name: CStr, x: Pcb?)
    ensures x in Survivors(s, name) <==> x in s && !Doomed(x, name)
  {
    if s != [] {
      var init := s[..|s| - 1];
      SurvivorsMembers(init, name, x);
      assert s == init + [s[|s| - 1]];
    }
  }

  /** The queue shrinks by exactly the number of matching processes, and
      survivors and victims together are the original contents. */
  lemma {:induction false} SurvivorsCount(s: seq<Pcb?>, name: CStr)
    ensures |Survivors(s, name)| + |Killed(s, name)| == |s|
    ensures multiset(Survivors(s, name)) + multiset(Killed(s, name)) == multiset(s)
  {
    if s != [] {
      var init := s[..|s| - 1];
      SurvivorsCount(init, name);
      assert s == init + [s[|s| - 1]];
    }
  }

  /** Every victim matches the name. */
  lemma {:induction false} KilledMatch(s: seq<Pcb?>, name: CStr)
    ensures forall i :: 0 <= i < |Killed(s, name)| ==> Doomed(Killed(s, name)[i], name)
  {
    if s != [] {
      KilledMatch(s[..|s| - 1], name);
    }
  }

  /** Filtering twice is filtering once. */
  lemma {:induction false} SurvivorsIdempotent(s: seq<Pcb?>, name: CStr)
    ensures Survivors(Survivors(s, name), name) == Survivors(s, name)
  {
    if s != [] {
      var init := s[..|s| - 1];
      SurvivorsIdempotent(init, name);
      var r := Survivors(init, name);
      if !Doomed(s[|s| - 1], name) {
        assert (r + [s[|s| - 1]])[..|r|] == r;
      }
    }
  }

  /** Looking at one more process of s extends the survivors by it
      exactly when it does not match. */
  lemma SurvivorsStep(s: seq<Pcb?>, m: nat, name: CStr)
    requires m < |s|
    ensures Survivors(s[..m + 1], name) ==
            if Doomed(s[m], name) then Survivors(s[..m], name) else Survivors(s[..m], name) + [s[m]]
  {
    assert s[..m + 1][..m] == s[..m];
  }

  /** Removing the entry just after a prefix r of r + t. */
  lemma RemoveAfterPrefix<T>(r: seq<T>, t: seq<T>)
    requires t != []
    ensures RemoveAt(r + t, |r|) == r + t[1..]
  {
    assert (r + t)[..|r|] == r;
    assert (r + t)[|r| + 1..] == t[1..];
  }

  /** Moving the first entry of t over to the end of r. */
  lemma MoveOver<T>(r: seq<T>, t: seq<T>)
    requires t != []
    ensures r + t == (r + [t[0]]) + t[1..]
  {
    assert t == [t[0]] + t[1..];
  }

  /** The removal loop's invariant survives one visit: with the survivors
      of s[..m] in front of s[m..], removing index |survivors| when s[m]
      matches, or stepping past it when it does not, gives the same shape
      for m + 1. */
  lemma VisitKeepsShape(s: seq<Pcb?>, m: nat, name: CStr)
    requires m < |s|
    ensures var r, e := Survivors(s[..m], name), Survivors(s[..m], name) + s[m..];
            && e[|r|] == s[m]
            && (Doomed(s[m], name) ==> RemoveAt(e, |r|) == Survivors(s[..m + 1], name) + s[m + 1..])
            && (!Doomed(s[m], name) ==> e == Survivors(s[..m + 1], name) + s[m + 1..]
                                        && |Survivors(s[..m + 1], name)| == |r| + 1)
  {
    var r := Survivors(s[..m], name);
    SurvivorsStep(s, m, name);
    assert s[m..][1..] == s[m + 1..];
    if Doomed(s[m], name) {
      RemoveAfterPrefix(r, s[m..]);
    } else {
      MoveOver(r, s[m..]);
    }
  }

  /** The state of the removal loop after m visits over the original
      contents s: the queue holds the survivors of s[..m] (j of them)
      followed by the processes not yet looked at. */
  ghost predicate Pending(q: Queue, s: seq<Pcb?>, m: nat, j: nat, name: CStr)
    reads q, q.proc
  {
    && q.Valid()
    && m <= |s|
    && j == |Survivors(s[..m], name)|
    && q.Elems() == Survivors(s[..m], name) + s[m..]
    && q.size == j + (|s| - m)
  }

  /** One visit of the removal loop at index j: a matching process is
      taken out by shifting the later ones down and j stays; otherwise j
      moves on.  Either way the loop has looked at one more process of s. */
  method VisitAt(q: Queue, j: nat, name: CStr, ghost s: seq<Pcb?>, ghost m: nat) returns (next: nat)
    requires Pending(q, s, m, j, name) && j < q.size
    modifies q, q.proc
    ensures m < |s| && Pending(q, s, m + 1, next, name)
    ensures next == if Doomed(s[m], name) then j else j + 1
  {
    VisitKeepsShape(s, m, name);
    var proc := q.proc[j];
    var hit := PathContains(Some(proc.path), Some(name));
    if hit == 1 {
      RemoveShift(q, j);
      next := j;
    } else {
      next := j + 1;
    }
  }

  /** Before the first visit: nothing looked at, nothing removed. */
  lemma PendingStart(q: Queue, name: CStr)
    requires q.Valid()
    ensures Pending(q, q.Elems(), 0, 0, name)
  {
    assert q.Elems()[..0] == [];
  }

  /** When the index reaches the size, every process has been looked at
      and the queue holds exactly the survivors. */
  lemma PendingDone(q: Queue, s: seq<Pcb?>, m: nat, j: nat, name: CStr)
    requires Pending(q, s, m, j, name) && j >= q.size
    ensures q.Valid() && q.Elems() == Survivors(s, name)
  {
    assert s[..m] == s;
  }

  /** One removal loop of __sys_killall on queue q: a matching process at
      index j is taken out (j stays, to look at the process moved into its
      place); otherwise j moves on. */
  method KillInQueue(q: Queue, name: CStr)
    requires q.Valid()
    modifies q, q.proc
    ensures q.Valid()
    ensures q.Elems() == Survivors(old(q.Elems()), name)
  {
    ghost var s0 := q.Elems();
    ghost var m := 0;
    var j := 0;
    PendingStart(q, name);
    while j < q.size
      invariant Pending(q, s0, m, j, name)
      decreases |s0| - m
    {
      j := VisitAt(q, j, name, s0, m);
      m := m + 1;
    }
    PendingDone(q, s0, m, j, name);
  }

  /** The queues __sys_killall may change: each level and its array. */
  ghost function LevelsRepr(mlq: seq<Queue>): set<object>
  {
    (set i | 0 <= i < |mlq| :: mlq[i] as object) + (set i | 0 <= i < |mlq| :: mlq[i].proc as object)
  }

  /** The running list and the levels are distinct queues with their own
      arrays, all well formed. */
  ghost predicate ListsOk(running: Queue?, mlq: Option<seq<Queue>>)
    reads running, if running != null then {running.proc} else {}
    reads if mlq.Some? then LevelsRepr(mlq.value) else {}
  {
    && (running != null ==> running.Valid())
    && (mlq.Some? ==>
          && |mlq.value| == MAX_PRIO
          && DistinctQueues(mlq.value)
          && (forall i :: 0 <= i < |mlq.value| ==> mlq.value[i].Valid())
          && (running != null ==> forall i :: 0 <= i < |mlq.value| ==>
                running != mlq.value[i] && running.proc != mlq.value[i].proc))
  }

  /** No two levels share a queue struct or an array (either order). */
  ghost predicate LevelsApart(mlq: seq<Queue>)
  {
    forall i, k :: 0 <= i < |mlq| && 0 <= k < |mlq| && i != k ==>
      mlq[i] != mlq[k] && mlq[i].proc != mlq[k].proc
  }

  /** DistinctQueues, stated for pairs in both orders. */
  lemma DistinctLevelsApart(mlq: seq<Queue>)
    requires DistinctQueues(mlq)
    ensures LevelsApart(mlq)
  {
    forall i, k | 0 <= i < |mlq| && 0 <= k < |mlq| && i != k
      ensures mlq[i] != mlq[k] && mlq[i].proc != mlq[k].proc
    {
      if i > k {
        assert mlq[k] != mlq[i] && mlq[k].proc != mlq[i].proc;
      }
    }
  }

  /** One pass of the level loop: level p is filtered and no other level
      changes. */
  method KillLevel(mlq: seq<Queue>, p: nat, name: CStr)
    requires p < |mlq| && LevelsApart(mlq)
    requires forall i :: 0 <= i < |mlq| ==> mlq[i].Valid()
    modifies mlq[p], mlq[p].proc
    ensures forall i :: 0 <= i < |mlq| ==> mlq[i].Valid()
    ensures mlq[p].Elems() == Survivors(old(mlq[p].Elems()), name)
    ensures forall i :: 0 <= i < |mlq| && i != p ==> mlq[i].Elems() == old(mlq[i].Elems())
  {
    KillInQueue(mlq[p], name);
  }

  /** The level loop of __sys_killall: every level p < MAX_PRIO in turn. */
  method KillInLevels(mlq: seq<Queue>, name: CStr)
    requires |mlq| == MAX_PRIO && DistinctQueues(mlq)
    requires forall i :: 0 <= i < |mlq| ==> mlq[i].Valid()
    modifies LevelsRepr(mlq)
    ensures forall i :: 0 <= i < |mlq| ==> mlq[i].Valid()
    ensures forall i :: 0 <= i < |mlq| ==> mlq[i].Elems() == Survivors(old(mlq[i].Elems()), name)
  {
    DistinctLevelsApart(mlq);
    var p := 0;
    while p < MAX_PRIO
      invariant 0 <= p <= MAX_PRIO
      invariant forall i :: 0 <= i < |mlq| ==> mlq[i].Valid()
      invariant forall i :: 0 <= i < p ==> mlq[i].Elems() == Survivors(old(mlq[i].Elems()), name)
      invariant forall i :: p <= i < |mlq| ==> mlq[i].Elems() == old(mlq[i].Elems())
    {
      assert mlq[p] in LevelsRepr(mlq) && mlq[p].proc in LevelsRepr(mlq);
      KillLevel(mlq, p, name);
      p := p + 1;
    }
  }

  /** __sys_killall after the name has been read: the matching processes
      leave the running list and (MLQ build) every ready level; everything
      else stays in order.  An absent list is skipped. */
  method SysKillAll(caller: Pcb, procName: CStr) returns (ret: int)
    requires ListsOk(caller.runningList, caller.mlqReadyQueue)
    modifies if caller.runningList != null then {caller.runningList, caller.runningList.proc} else {}
    modifies if caller.mlqReadyQueue.Some? then LevelsRepr(caller.mlqReadyQueue.value) else {}
    ensures ret == 0
    ensures ListsOk(caller.runningList, caller.mlqReadyQueue)
    ensures caller.runningList != null ==>
              caller.runningList.Elems() == Survivors(old(caller.runningList.Elems()), procName)
    ensures caller.mlqReadyQueue.Some? ==>
              var mlq := caller.mlqReadyQueue.value;
              forall i :: 0 <= i < |mlq| ==> mlq[i].Elems() == Survivors(old(mlq[i].Elems()), procName)
  {
    var running := caller.runningList;
    if running != null {
      KillInQueue(running, procName);
    }
    if caller.mlqReadyQueue.Some? {
      KillInLevels(caller.mlqReadyQueue.value, procName);
    }
    ret := 0;
  }
}
