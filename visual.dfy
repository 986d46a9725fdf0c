/** The per-process bookkeeping of the memory visualiser (mem_visual.py):
    a map from region id to the allocated (start, size) piece and a list of
    free (start, size) pieces, re-derived from each logged allocation and
    release. */
module MemVisual {
  import opened Common

  /** A (start, size) piece of the virtual space: bytes [start, start + size). */
  datatype Piece = Piece(start: int, size: int)

  function End(p: Piece): int { p.start + p.size }

  /** Byte x lies in piece p. */
  predicate In(p: Piece, x: int) { p.start <= x < End(p) }

  /** Byte x lies in some piece of s. */
  ghost predicate Covers(s: seq<Piece>, x: int)
  {
    exists i :: 0 <= i < |s| && In(s[i], x)
  }

  /** A byte lies in a + b exactly when it lies in a or in b. */
  lemma CoversAppend(a: seq<Piece>, b: seq<Piece>, x: int)
    ensures Covers(a + b, x) <==> Covers(a, x) || Covers(b, x)
  {
    if Covers(a + b, x) {
      var i :| 0 <= i < |a + b| && In((a + b)[i], x);
      if i >= |a| {
        assert In(b[i - |a|], x);
      }
    }
    if Covers(a, x) {
      var i :| 0 <= i < |a| && In(a[i], x);
      assert (a + b)[i] == a[i];
    }
    if Covers(b, x) {
      var i :| 0 <= i < |b| && In(b[i], x);
      assert (a + b)[|a| + i] == b[i];
    }
  }

  /** Two lists holding the same pieces (in any order, any number of
      times each) cover the same bytes. */
  lemma CoversSameMembers(s: seq<Piece>, t: seq<Piece>, x: int)
    requires forall p :: p in s <==> p in t
    ensures Covers(s, x) <==> Covers(t, x)
  {
    if Covers(s, x) {
      var i :| 0 <= i < |s| && In(s[i], x);
      assert s[i] in t;
    }
    if Covers(t, x) {
      var i :| 0 <= i < |t| && In(t[i], x);
      assert t[i] in s;
    }
  }

  /* ---------------------------------------------------------------- */
  /* allocate                                                          */
  /* ---------------------------------------------------------------- */

  /** What allocate puts in place of free piece p: p itself when it does
      not meet [addr, addr + size); otherwise its part left of addr and its
      part right of addr + size, each only when not empty. */
  function CutPiece(p: Piece, addr: int, size: int): seq<Piece>
  {
    var fe := End(p);
    if addr >= fe || addr + size <= p.start then [p]
    else
      (if addr > p.start then [Piece(p.start, addr - p.start)] else [])
      + (if addr + size < fe then [Piece(addr + size, fe - (addr + size))] else [])
  }

  /** The new free list built by allocate's loop over the pieces of s. */
  function Cut(s: seq<Piece>, addr: int, size: int): seq<Piece>
  {
    if s == [] then []
    else Cut(s[..|s| - 1], addr, size) + CutPiece(s[|s| - 1], addr, size)
  }

  /** The pieces that replace p cover the bytes of p outside the
      allocated range, and no others. */
  lemma CutPieceCoverage(p: Piece, addr: int, size: int, x: int)
    ensures Covers(CutPiece(p, addr, size), x) <==> In(p, x) && !(addr <= x < addr + size)
  {
    var c := CutPiece(p, addr, size);
    var fe := End(p);
    if addr >= fe || addr + size <= p.start {
      if In(p, x) {
        assert In(c[0], x);
      }
    } else {
      var left := if addr > p.start then [Piece(p.start, addr - p.start)] else [];
      var right := if addr + size < fe then [Piece(addr + size, fe - (addr + size))] else [];
      CoversAppend(left, right, x);
      if In(p, x) && x < addr {
        assert In(left[0], x);
      }
      if In(p, x) && x >= addr + size {
        assert In(right[0], x);
      }
    }
  }

  /** After the loop of allocate, a byte is free exactly when it was free
      before and lies outside the allocated range: no free piece keeps a
      byte of [addr, addr + size). */
  lemma {:induction false} CutCoverage(s: seq<Piece>, addr: int, size: int, x: int)
    ensures Covers(Cut(s, addr, size), x) <==> Covers(s, x) && !(addr <= x < addr + size)
  {
    if s != [] {
      var init, last := s[..|s| - 1], s[|s| - 1];
      CutCoverage(init, addr, size, x);
      CutPieceCoverage(last, addr, size, x);
      CoversAppend(Cut(init, addr, size), CutPiece(last, addr, size), x);
      CoversAppend(init, [last], x);
      assert s == init + [last];
      assert Covers([last], x) <==> In(last, x) by {
        if In(last, x) {
          assert In([last][0], x);
        }
      }
    }
  }

  /** The loop of allocate: the pieces of free, each replaced by what is
      left of it outside [addr, addr + size). */
  method CutLoop(free: seq<Piece>, addr: int, size: int) returns (newFree: seq<Piece>)
    ensures newFree == Cut(free, addr, size)
  {
    newFree := [];
    var i := 0;
    while i < |free|
      invariant i <= |free|
      invariant newFree == Cut(free[..i], addr, size)
    {
      assert free[..i + 1][..i] == free[..i];
      var fs, sz := free[i].start, free[i].size;
      var fe := fs + sz;
      if addr >= fe || addr + size <= fs {
        newFree := newFree + [Piece(fs, sz)];
      } else {
        if addr > fs {
          newFree := newFree + [Piece(fs, addr - fs)];
        }
        if addr + size < fe {
          newFree := newFree + [Piece(addr + size, fe - (addr + size))];
        }
      }
      i := i + 1;
    }
    assert free[..|free|] == free;
  }

  /** list(dict.fromkeys(s)): the first occurrence of every piece, in
      order of first occurrence. */
  function Dedup(s: seq<Piece>): seq<Piece>
  {
    if s == [] then []
    else
      var d := Dedup(s[..|s| - 1]);
      if s[|s| - 1] in d then d else d + [s[|s| - 1]]
  }

  /** Dedup keeps every piece of s and adds none. */
  lemma {:induction false} DedupMembers(s: seq<Piece>)
    ensures forall p :: p in Dedup(s) <==> p in s
  {
    if s != [] {
      var init := s[..|s| - 1];
      DedupMembers(init);
      assert s == init + [s[|s| - 1]];
    }
  }

  /** Dedup leaves no piece twice. */
  lemma {:induction false} DedupDistinct(s: seq<Piece>)
    ensures forall i, j :: 0 <= i < j < |Dedup(s)| ==> Dedup(s)[i] != Dedup(s)[j]
  {
    if s != [] {
      DedupDistinct(s[..|s| - 1]);
    }
  }

  /** Dedup of a list without repeats is that list. */
  lemma {:induction false} DedupOfDistinct(s: seq<Piece>)
    requires forall i, j :: 0 <= i < j < |s| ==> s[i] != s[j]
    ensures Dedup(s) == s
  {
    if s != [] {
      var init := s[..|s| - 1];
      DedupOfDistinct(init);
      assert s[|s| - 1] !in init;
      assert s == init + [s[|s| - 1]];
    }
  }

  /** The free list allocate leaves: the cut pieces, then the rest of the
      allocation's last page, with repeats dropped. */
  function AllocatedFree(free: seq<Piece>, addr: int, size: int): seq<Piece>
  {
    var nfe := RoundUpToPage(addr + size);
    Dedup(Cut(free, addr, size) + [Piece(addr + size, nfe - (addr + size))])
  }

  /** Dropping repeats changes no byte's coverage. */
  lemma DedupCoverage(s: seq<Piece>, x: int)
    ensures Covers(Dedup(s), x) <==> Covers(s, x)
  {
    DedupMembers(s);
    CoversSameMembers(Dedup(s), s, x);
  }

  /** A byte lies in a + [p] exactly when it lies in a or in p. */
  lemma CoversSnoc(a: seq<Piece>, p: Piece, x: int)
    ensures Covers(a + [p], x) <==> Covers(a, x) || In(p, x)
  {
    CoversAppend(a, [p], x);
    if In(p, x) {
      assert In([p][0], x);
    }
  }

  /** After allocate a byte is free exactly when it was free before and is
      not allocated, or it lies in the rest of the allocation's last page. */
  lemma AllocatedFreeCoverage(free: seq<Piece>, addr: int, size: int, x: int)
    ensures Covers(AllocatedFree(free, addr, size), x) <==>
              (Covers(free, x) && !(addr <= x < addr + size)) || addr + size <= x < RoundUpToPage(addr + size)
  {
    var cut := Cut(free, addr, size);
    var tail := Piece(addr + size, RoundUpToPage(addr + size) - (addr + size));
    DedupCoverage(cut + [tail], x);
    CoversSnoc(cut, tail, x);
    CutCoverage(free, addr, size, x);
  }

  /** After allocate the free list holds no piece twice. */
  lemma AllocatedFreeDistinct(free: seq<Piece>, addr: int, size: int)
    ensures var f := AllocatedFree(free, addr, size);
            forall i, j :: 0 <= i < j < |f| ==> f[i] != f[j]
  {
    var nfe := RoundUpToPage(addr + size);
    DedupDistinct(Cut(free, addr, size) + [Piece(addr + size, nfe - (addr + size))]);
  }

  /** With a non-negative size no free piece keeps a byte of the newly
      allocated range. */
  lemma AllocatedRangeNotFree(free: seq<Piece>, addr: int, size: int, x: int)
    requires size >= 0 && addr <= x < addr + size
    ensures !Covers(AllocatedFree(free, addr, size), x)
  {
    AllocatedFreeCoverage(free, addr, size, x);
  }

  /* ---------------------------------------------------------------- */
  /* deallocate                                                        */
  /* ---------------------------------------------------------------- */

  /** Starts never decrease along s. */
  ghost predicate SortedByStart(s: seq<Piece>)
  {
    forall i, j :: 0 <= i < j < |s| ==> s[i].start <= s[j].start
  }

  /** p put into t after every piece that does not start later: the
      insertion step of a stable sort by start. */
  function InsertByStart(t: seq<Piece>, p: Piece): (r: seq<Piece>)
    ensures |r| == |t| + 1
  {
    if t == [] then [p]
    else if t[|t| - 1].start <= p.start then t + [p]
    else InsertByStart(t[..|t| - 1], p) + [t[|t| - 1]]
  }

  /** sorted(s, key=lambda x: x[0]): a stable sort by start. */
  function SortByStart(s: seq<Piece>): (r: seq<Piece>)
    ensures |r| == |s|
  {
    if s == [] then [] else InsertByStart(SortByStart(s[..|s| - 1]), s[|s| - 1])
  }

  /** Every entry of an insertion's result is p or an entry of t. */
  lemma {:induction false} InsertByStartMembers(t: seq<Piece>, p: Piece)
    ensures forall i :: 0 <= i < |InsertByStart(t, p)| ==> InsertByStart(t, p)[i] == p || InsertByStart(t, p)[i] in t
  {
    if t != [] && t[|t| - 1].start > p.start {
      var init, last := t[..|t| - 1], t[|t| - 1];
      InsertByStartMembers(init, p);
      var r := InsertByStart(init, p);
      assert InsertByStart(t, p) == r + [last];
      forall i | 0 <= i < |r|
        ensures r[i] == p || r[i] in t
      {
        if r[i] != p {
          var k :| 0 <= k < |init| && init[k] == r[i];
          assert t[k] == init[k];
        }
      }
    }
  }

  /** Insertion into a sorted list keeps it sorted. */
  lemma {:induction false} InsertByStartSorted(t: seq<Piece>, p: Piece)
    requires SortedByStart(t)
    ensures SortedByStart(InsertByStart(t, p))
  {
    if t != [] && t[|t| - 1].start > p.start {
      var init, last := t[..|t| - 1], t[|t| - 1];
      InsertByStartSorted(init, p);
      InsertByStartMembers(init, p);
      var r := InsertByStart(init, p);
      forall i | 0 <= i < |r|
        ensures r[i].start <= last.start
      {
        if r[i] != p {
          assert r[i] in init;
          var k :| 0 <= k < |init| && init[k] == r[i];
          assert t[k] == init[k];
        }
      }
    }
  }

  /** The sort leaves the list sorted by start. */
  lemma {:induction false} SortByStartSorted(s: seq<Piece>)
    ensures SortedByStart(SortByStart(s))
  {
    if s != [] {
      SortByStartSorted(s[..|s| - 1]);
      InsertByStartSorted(SortByStart(s[..|s| - 1]), s[|s| - 1]);
    }
  }

  /** Insertion adds exactly one copy of p. */
  lemma {:induction false} InsertByStartPermutes(t: seq<Piece>, p: Piece)
    ensures multiset(InsertByStart(t, p)) == multiset(t) + multiset{p}
  {
    if t != [] && t[|t| - 1].start > p.start {
      var init, last := t[..|t| - 1], t[|t| - 1];
      InsertByStartPermutes(init, p);
      assert t == init + [last];
    }
  }

  /** The sort is a permutation. */
  lemma {:induction false} SortByStartPermutes(s: seq<Piece>)
    ensures multiset(SortByStart(s)) == multiset(s)
  {
    if s != [] {
      var init, last := s[..|s| - 1], s[|s| - 1];
      SortByStartPermutes(init);
      InsertByStartPermutes(SortByStart(init), last);
      assert s == init + [last];
    }
  }

  function Max(a: int, b: int): int { if a >= b then a else b }

  /** One step of the coalescing loop: p joins the last piece of m when it
      starts no later than that piece ends, and is appended otherwise. */
  function MergeInto(m: seq<Piece>, p: Piece): seq<Piece>
  {
    if m == [] then [p]
    else
      var prev := m[|m| - 1];
      if p.start <= End(prev) then m[..|m| - 1] + [Piece(prev.start, Max(prev.size, End(p) - prev.start))]
      else m + [p]
  }

  /** The coalescing loop over all of s. */
  function Coalesce(s: seq<Piece>): seq<Piece>
  {
    if s == [] then [] else MergeInto(Coalesce(s[..|s| - 1]), s[|s| - 1])
  }

  /** Every piece ends strictly before the next one starts. */
  ghost predicate Gapped(m: seq<Piece>)
  {
    forall k :: 0 <= k < |m| - 1 ==> End(m[k]) < m[k + 1].start
  }

  /** One coalescing step keeps the list sorted and gapped, provided p
      starts no earlier than the last piece. */
  lemma MergeIntoShape(m: seq<Piece>, p: Piece)
    requires SortedByStart(m) && Gapped(m)
    requires m != [] ==> m[|m| - 1].start <= p.start
    ensures var r := MergeInto(m, p);
            && SortedByStart(r) && Gapped(r) && r != []
            && r[|r| - 1].start <= p.start
  {
    if m != [] {
      var prev := m[|m| - 1];
      if p.start <= End(prev) {
        var r := MergeInto(m, p);
        assert r[..|m| - 1] == m[..|m| - 1];
        assert r[|m| - 1].start == prev.start;
        assert forall i :: 0 <= i < |m| ==> r[i].start == m[i].start;
      }
    }
  }

  /** Coalescing a list sorted by start gives a list sorted by start whose
      pieces neither overlap nor touch; its last piece starts no later than
      the last input piece. */
  lemma {:induction false} CoalesceShape(s: seq<Piece>)
    requires SortedByStart(s)
    ensures var c := Coalesce(s);
            && SortedByStart(c) && Gapped(c)
            && (s == [] <==> c == [])
            && (s != [] ==> c[|c| - 1].start <= s[|s| - 1].start)
  {
    if s != [] {
      var init, p := s[..|s| - 1], s[|s| - 1];
      CoalesceShape(init);
      var m := Coalesce(init);
      if m != [] {
        assert init[|init| - 1] == s[|s| - 2];
      }
      MergeIntoShape(m, p);
    }
  }

  /** The coalesced prefix of a sorted list ends in a piece that starts no
      later than the list's last piece. */
  lemma CoalesceBeforeLast(s: seq<Piece>)
    requires SortedByStart(s) && s != []
    ensures var m := Coalesce(s[..|s| - 1]);
            m != [] ==> m[|m| - 1].start <= s[|s| - 1].start
  {
    var init := s[..|s| - 1];
    CoalesceShape(init);
    if init != [] {
      assert init[|init| - 1] == s[|s| - 2];
    }
  }

  /** Adding p to m (where p starts no earlier than m's last piece) covers
      exactly the bytes of m and of p. */
  lemma MergeIntoCoverage(m: seq<Piece>, p: Piece, x: int)
    requires m != [] ==> m[|m| - 1].start <= p.start
    ensures Covers(MergeInto(m, p), x) <==> Covers(m, x) || In(p, x)
  {
    if m == [] {
      if In(p, x) {
        assert In(MergeInto(m, p)[0], x);
      }
    } else {
      var prev := m[|m| - 1];
      var init := m[..|m| - 1];
      assert m == init + [prev];
      CoversSnoc(init, prev, x);
      if p.start <= End(prev) {
        CoversSnoc(init, Piece(prev.start, Max(prev.size, End(p) - prev.start)), x);
      } else {
        CoversSnoc(m, p, x);
      }
    }
  }

  /** Coalescing a sorted list covers exactly the bytes the list covered. */
  lemma {:induction false} CoalesceCoverage(s: seq<Piece>, x: int)
    requires SortedByStart(s)
    ensures Covers(Coalesce(s), x) <==> Covers(s, x)
  {
    if s != [] {
      var init, p := s[..|s| - 1], s[|s| - 1];
      CoalesceCoverage(init, x);
      CoalesceBeforeLast(s);
      MergeIntoCoverage(Coalesce(init), p, x);
      assert s == init + [p];
      CoversSnoc(init, p, x);
    }
  }

  /** The coalescing loop of deallocate on the sorted list s; the last
      entry of merged is the one the loop widens in place. */
  method CoalesceLoop(s: seq<Piece>) returns (merged: seq<Piece>)
    ensures merged == Coalesce(s)
  {
    merged := [];
    var i := 0;
    while i < |s|
      invariant i <= |s|
      invariant merged == Coalesce(s[..i])
    {
      assert s[..i + 1][..i] == s[..i];
      var fs, sz := s[i].start, s[i].size;
      if merged == [] {
        merged := merged + [Piece(fs, sz)];
      } else {
        var prev := merged[|merged| - 1];
        if fs <= prev.start + prev.size {
          merged := merged[|merged| - 1 := Piece(prev.start, Max(prev.size, fs + sz - prev.start))];
        } else {
          merged := merged + [Piece(fs, sz)];
        }
      }
      i := i + 1;
    }
    assert s[..|s|] == s;
  }

  /** The free list deallocate leaves when piece p is given back. */
  function ReleasedFree(free: seq<Piece>, p: Piece): seq<Piece>
  {
    Coalesce(SortByStart(free + [p]))
  }

  /** Two lists that are permutations of each other cover the same bytes. */
  lemma CoversPermutation(s: seq<Piece>, t: seq<Piece>, x: int)
    requires multiset(s) == multiset(t)
    ensures Covers(s, x) <==> Covers(t, x)
  {
    forall q
      ensures q in s <==> q in t
    {
      assert q in s <==> q in multiset(s);
      assert q in t <==> q in multiset(t);
    }
    CoversSameMembers(s, t, x);
  }

  /** After deallocate the free list is sorted by start, its pieces are
      separated by gaps, and it covers exactly the bytes that were free
      plus the bytes of the released piece. */
  lemma ReleasedFreeShape(free: seq<Piece>, p: Piece, x: int)
    ensures var f := ReleasedFree(free, p);
            SortedByStart(f) && Gapped(f) && f != []
    ensures Covers(ReleasedFree(free, p), x) <==> Covers(free, x) || In(p, x)
  {
    var sorted := SortByStart(free + [p]);
    SortByStartPermutes(free + [p]);
    SortByStartSorted(free + [p]);
    CoalesceShape(sorted);
    CoalesceCoverage(sorted, x);
    CoversPermutation(sorted, free + [p], x);
    CoversSnoc(free, p, x);
  }

  /** ProcessState: the allocated pieces by region id, and the free list. */
  class ProcessState {
    var vmas: map<int, Piece>
    var free: seq<Piece>

    /** A state with no allocation and the given free pieces. */
    constructor Init(initialFree: seq<Piece>)
      ensures vmas == map[] && free == initialFree
    {
      vmas := map[];
      free := initialFree;
    }

    /** allocate: region is recorded as (addr, size), and the free list
        becomes AllocatedFree of the old one. */
    method Allocate(region: int, addr: int, size: int)
      modifies this
      ensures vmas == old(vmas)[region := Piece(addr, size)]
      ensures free == AllocatedFree(old(free), addr, size)
    {
      var newFree := CutLoop(free, addr, size);
      vmas := vmas[region := Piece(addr, size)];
      var nfe := addr + size;
      nfe := if nfe % PAGING_PAGESZ != 0 then (nfe / PAGING_PAGESZ + 1) * PAGING_PAGESZ else nfe;
      newFree := newFree + [Piece(addr + size, nfe - (addr + size))];
      free := Dedup(newFree);
    }

    /** deallocate: nothing changes for an unknown region; otherwise the
        region's piece leaves vmas and is merged back into the free list. */
    method Deallocate(region: int)
      modifies this
      ensures region !in old(vmas) ==> vmas == old(vmas) && free == old(free)
      ensures region in old(vmas) ==>
                && vmas == old(vmas) - {region}
                && free == ReleasedFree(old(free), old(vmas)[region])
    {
      if region !in vmas {
        return;
      }
      var p := vmas[region];
      vmas := vmas - {region};
      free := free + [p];
      free := SortByStart(free);
      var merged := CoalesceLoop(free);
      free := merged;
    }
  }
}
