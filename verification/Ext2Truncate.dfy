/**
 * Cutting an ext2 file off (the block part of _ext2_file_truncate of ext2/file.c, ext2_iblock_free and
 * ext2_iblock_destroy of ext2/block.c).
 *
 * The data blocks from a place on are released in runs; then the pointers are walked backwards,
 * each is cleared, and an indirect block is released when its first pointer was.  Every block
 * the cut-off part named is released once, no slot of the cache names a block that was, and the
 * pointers before the cut are as they were.
 */
module Ext2Truncate {
  import opened Ext2Index
  import opened Ext2Tree
  import opened Ext2Space
  import opened Ext2File

  // ---------------------------------------------------------------------------------------
  // The order of pointers

  /** The path continued with zeros down to a data block: the first block below a pointer. */
  ghost function Full(p: Path): Path
    requires 0 < |p| <= Height(p[0]) + 1
  {
    p + seq(Height(p[0]) + 1 - |p|, i => 0)
  }

  lemma FullIsLeaf(a: nat, p: Path)
    requires a > 0 && IsPath(a, p)
    ensures IsLeaf(a, Full(p)) && p <= Full(p)
  {
  }

  /** The index of the first block below a pointer. */
  ghost function First(a: nat, p: Path): nat
    requires a > 0 && IsPath(a, p)
  {
    FullIsLeaf(a, p);
    IndexOf(a, Full(p))
  }

  lemma PairMono(high: nat, low: nat, high2: nat, low2: nat, a: nat)
    requires high <= high2 && low <= low2
    ensures Pair(high, low, a) <= Pair(high2, low2, a)
  {
    Times(high, high2, a);
  }

  /** Smaller entries, smaller index. */
  lemma IndexMono(a: nat, p: Path, q: Path)
    requires a > 0 && IsLeaf(a, p) && IsLeaf(a, q) && p[0] == q[0] && forall i :: 1 <= i < |p| ==> p[i] <= q[i]
    ensures IndexOf(a, p) <= IndexOf(a, q)
    ensures IndexOf(a, p) == IndexOf(a, q) ==> p == q
  {
    hide Pair;
    if |p| == 3 {
      PairMono(p[1], p[2], q[1], q[2], a);
    } else if |p| == 4 {
      PairMono(p[1], p[2], q[1], q[2], a);
      PairMono(Pair(p[1], p[2], a), p[3], Pair(q[1], q[2], a), q[3], a);
    }
    if IndexOf(a, p) == IndexOf(a, q) {
      PathOfIndex(a, p);
      PathOfIndex(a, q);
    }
  }

  /** A pointer on the way to a block comes no later, and is the last to be needed exactly by its first block. */
  lemma FirstOnWay(a: nat, q: Path, k: nat)
    requires a > 0 && k < Limit(a) && OnWay(q, PathOf(a, k))
    ensures IsNode(a, q) && First(a, q) <= k &&
            (First(a, q) == k <==> forall i :: |q| <= i < |PathOf(a, k)| ==> PathOf(a, k)[i] == 0)
  {
    hide Limit, PathOf, IndexOf;
    var p := PathOf(a, k);
    IndexOfPath(a, k);
    FullIsLeaf(a, q);
    var f := Full(q);
    IndexMono(a, f, p);
    if forall i :: |q| <= i < |p| ==> p[i] == 0 {
      assert f == p;
    }
  }

  lemma FirstChild(a: nat, q: Path, i: nat)
    requires a > 0 && IsNode(a, q) && i < a
    ensures IsPath(a, Child(q, i)) && First(a, q) <= First(a, Child(q, i))
  {
    hide IndexOf;
    FullIsLeaf(a, q);
    FullIsLeaf(a, Child(q, i));
    IndexMono(a, Full(q), Full(Child(q, i)));
  }

  // ---------------------------------------------------------------------------------------
  // Releasing a data block, and an indirect one

  /** A data block is released; its pointer is left where it is but counts no more. */
  ghost function Killed(s: State, p: Path): State {
    s.(ptr := s.ptr[p := 0], dead := s.dead[p := At(s, p)], free := if At(s, p) == 0 then s.free
      else s.free + {At(s, p)})
  }

  lemma KillKeeps(a: nat, s: State, p: Path)
    requires Ok(a, s) && IsLeaf(a, p) && p !in s.dead && HasPlace(s, p)
    ensures Ok(a, Killed(s, p))
  {
    var t := Killed(s, p);
    assert forall q :: At(t, q) == if q == p then 0 else At(s, q);
    assert forall q :: Entry(t, q) == Entry(s, q);
    forall q: Path, i: nat | IsNode(a, q) && i < a ensures CellOk(t, q, i) {
      KillCell(a, s, p, q, i);
    }
    assert RootOk(a, s);
    hide CellOk, NodeData, IsPath, Entry;
    KillSlots(a, s, p);
    KillDead(a, s, p);
  }

  lemma KillCell(a: nat, s: State, p: Path, q: Path, i: nat)
    requires Ok(a, s) && IsLeaf(a, p) && p !in s.dead && HasPlace(s, p) && IsNode(a, q) && i < a
    ensures CellOk(Killed(s, p), q, i)
  {
    assert CellOk(s, q, i);
    assert At(s, q) == At(Killed(s, p), q);
  }

  lemma KillSlots(a: nat, s: State, p: Path)
    requires SlotsOk(a, s) && IsLeaf(a, p)
    ensures SlotsOk(a, Killed(s, p))
  {
  }

  lemma KillDead(a: nat, s: State, p: Path)
    requires DeadOk(a, s) && IsLeaf(a, p) && HasPlace(s, p)
    ensures DeadOk(a, Killed(s, p))
  {
    var t := Killed(s, p);
    forall q | q in t.dead ensures IsLeaf(a, q) && At(t, q) == 0 && HasPlace(t, q) {
      if |q| > 1 {
        var n := |q| - 1;
        assert q[..n] != p by {
          assert q[..n][0] == q[0];
        }
      }
    }
  }

  lemma GiveTotal(free: set<nat>, ptr: map<Path, nat>, p: Path)
    requires p in ptr && ptr[p] != 0
    ensures Total(free + {ptr[p]}, ptr[p := 0]) == Total(free, ptr)
  {
    var less, n := ptr[p := 0], ptr[p];
    forall b ensures b in Total(free + {n}, less) <==> b in Total(free, ptr) {
      if b in Total(free, ptr) && b !in free && b != n {
        var q :| q in ptr && ptr[q] != 0 && ptr[q] == b;
        assert q in less && less[q] == b;
      }
      if b in Total(free + {n}, less) && b !in free && b != n {
        var q :| q in less && less[q] != 0 && less[q] == b;
        assert q in ptr && ptr[q] == b;
      }
    }
  }

  /** No slot holds block n any more. */
  ghost function Dropped(s: State, n: nat): State {
    s.(slots := seq(|s.slots|, d requires 0 <= d < |s.slots| => if Held(s, d, n) then Empty else s.slots[d]))
  }

  /** The pointers without those at and below p. */
  ghost function Cut(ptr: map<Path, nat>, p: Path): map<Path, nat> {
    map r | r in ptr && !(p <= r) :: ptr[r]
  }

  /**
   * An indirect block is released, and the pointer to it cleared: whatever pointers were left in it
   * are gone with it.
   */
  ghost function Removed(a: nat, s: State, p: Path): State
    requires CellIndexed(a, s, p) && CellIndexed(a, Dropped(s, At(s, p)), p)
  {
    PutCell(Dropped(s, At(s, p)), p, 0).(ptr := Cut(s.ptr, p), free := s.free + {At(s, p)})
  }

  lemma DropOnly(a: nat, s: State, p: Path)
    requires Ok(a, s) && IsNode(a, p) && At(s, p) != 0
    ensures forall d :: 0 <= d < 3 && Held(s, d, At(s, p)) ==> d == Level(p)
  {
    forall d: nat | d < 3 && Held(s, d, At(s, p)) ensures d == Level(p) {
      assert SlotOk(a, s, d);
      assert s.own[d] == p;
    }
  }

  lemma DropReady(a: nat, s: State, p: Path)
    requires Ok(a, s) && IsNode(a, p) && At(s, p) != 0 && ParentReady(s, p)
    ensures CellIndexed(a, s, p) && ParentReady(Dropped(s, At(s, p)), p) && CellIndexed(a, Dropped(s, At(s, p)), p)
  {
    CellIndex(a, s, p);
    DropOnly(a, s, p);
    var t := Dropped(s, At(s, p));
    assert |t.slots| == 3;
    if |p| > 1 {
      assert t.slots[Level(p) + 1] == s.slots[Level(p) + 1];
    }
  }

  lemma RemoveNode(a: nat, s: State, p: Path, q: Path)
    requires Ok(a, s) && IsNode(a, p) && At(s, p) != 0 && ParentReady(s, p)
    requires IsNode(a, q) && !(p <= q) && At(s, q) != 0
    ensures CellIndexed(a, s, p) && CellIndexed(a, Dropped(s, At(s, p)), p)
    ensures |p| > 1 && q == p[..|p| - 1] ==> p[|p| - 1] < |NodeData(s, q)|
    ensures NodeData(Removed(a, s, p), q) == if |p| > 1 && q == p[..|p| - 1] then NodeData(s, q)[p[|p| - 1] := 0]
            else NodeData(s, q)
  {
    DropReady(a, s, p);
    DropOnly(a, s, p);
    var t := Removed(a, s, p);
    assert At(t, q) == At(s, q) != At(s, p);
    if |p| > 1 && Held(s, Level(p) + 1, At(s, q)) {
      assert SlotOk(a, s, Level(p) + 1);
      assert q == s.own[Level(p) + 1];
    }
  }

  ghost predicate NoChildren(a: nat, s: State, p: Path) {
    forall i: nat :: i < a ==> At(s, Child(p, i)) == 0
  }

  /** No slot of a lower level is in use. */
  ghost predicate NoneBelowLevel(s: State, k: int) {
    forall e :: 0 <= e < k && e < |s.slots| ==> !s.slots[e].Holds?
  }

  lemma ExtendsChild(p: Path, q: Path, i: nat)
    ensures p <= Child(q, i) <==> p <= q || p == Child(q, i)
  {
    if p <= Child(q, i) && |p| <= |q| {
      assert p == Child(q, i)[..|p|] == q[..|p|];
    }
  }

  /** No pointer below p waits to be cleared. */
  ghost predicate NoneDeadUnder(s: State, p: Path) {
    forall r :: r in s.dead ==> !(p <= r)
  }

  lemma RemoveKeeps(a: nat, s: State, p: Path)
    requires Ok(a, s) && IsNode(a, p) && At(s, p) != 0 && ParentReady(s, p) && NoneBelowLevel(s, Level(p))
    requires NoneDeadUnder(s, p)
    ensures CellIndexed(a, s, p) && CellIndexed(a, Dropped(s, At(s, p)), p) && Ok(a, Removed(a, s, p))
    ensures forall r :: At(Removed(a, s, p), r) == if p <= r then 0 else At(s, r)
  {
    DropReady(a, s, p);
    var t := Removed(a, s, p);
    assert forall r :: At(t, r) == if p <= r then 0 else At(s, r);
    forall q: Path, i: nat | IsNode(a, q) && i < a ensures CellOk(t, q, i) {
      assert CellOk(s, q, i);
      ChildIs(p, q, i);
      ExtendsChild(p, q, i);
      if !(p <= q) && At(s, q) != 0 {
        RemoveNode(a, s, p, q);
      }
    }
    RemoveSlots(a, s, p);
    RemoveRoot(a, s, p);
  }

  lemma RemoveRoot(a: nat, s: State, p: Path)
    requires Ok(a, s) && IsNode(a, p) && CellIndexed(a, s, p) && CellIndexed(a, Dropped(s, At(s, p)), p)
    requires NoneDeadUnder(s, p)
    ensures RootOk(a, Removed(a, s, p))
  {
    var t := Removed(a, s, p);
    forall i: nat | i < ROOT_SLOTS ensures t.root[i] == Entry(t, Top(i)) {
      assert s.root[i] == Entry(s, Top(i));
      assert p <= Top(i) <==> |p| == 1 && p[0] == i;
    }
  }

  lemma RemoveSlots(a: nat, s: State, p: Path)
    requires Ok(a, s) && IsNode(a, p) && At(s, p) != 0 && CellIndexed(a, s, p) &&
             CellIndexed(a, Dropped(s, At(s, p)), p)
    requires NoneBelowLevel(s, Level(p))
    ensures SlotsOk(a, Removed(a, s, p))
  {
    var t := Removed(a, s, p);
    forall d: nat | d < 3 ensures SlotOk(a, t, d) {
      assert SlotOk(a, s, d);
      if s.slots[d].Holds? && p <= s.own[d] {
        assert Level(s.own[d]) == d >= Level(p) && s.own[d] == p;
      }
    }
  }

  // ---------------------------------------------------------------------------------------
  // Releasing the data blocks

  /** Pointers of data blocks from lo up to hi no longer count. */
  ghost predicate DeadIn(a: nat, s: State, lo: nat, hi: nat)
    requires a > 0
  {
    forall p :: p in s.dead ==> IsLeaf(a, p) && lo <= IndexOf(a, p) < hi
  }

  ghost predicate NoneIn(a: nat, s: State, lo: nat, hi: nat) {
    forall k :: lo <= k < hi ==> Ptr(a, s, k) == 0
  }

  /** Beyond `end` there is nothing: no data block, and no indirect block for data from there on only. */
  ghost predicate EndsAt(a: nat, s: State, end: nat)
    requires a > 0
  {
    forall p :: IsPath(a, p) && First(a, p) >= end ==> At(s, p) == 0
  }

  lemma KillPtr(a: nat, s: State, k: nat)
    requires a > 0 && k < Limit(a)
    ensures forall j :: Ptr(a, Killed(s, PathOf(a, k)), j) == if j == k then 0 else Ptr(a, s, j)
    ensures forall j: nat :: j < Limit(a) && NodesThere(a, s, j) ==> NodesThere(a, Killed(s, PathOf(a, k)), j)
  {
    var t := Killed(s, PathOf(a, k));
    forall j: nat ensures Ptr(a, t, j) == if j == k then 0 else Ptr(a, s, j) {
      if j < Limit(a) && PathOf(a, j) == PathOf(a, k) {
        PathInjective(a, j, k);
      }
    }
    PathIsLeaf(a, k);
    forall j: nat | j < Limit(a) && NodesThere(a, s, j) ensures NodesThere(a, t, j) {
      var p := PathOf(a, j);
      PathIsLeaf(a, j);
      forall m | 1 <= m < |p| ensures At(t, p[..m]) != 0 {
        assert p[..m] != PathOf(a, k) by {
          assert p[..m][0] == p[0];
        }
      }
    }
  }

  /** The pointers for data from `end` on only are the same. */
  ghost predicate SameBeyond(a: nat, s0: State, s: State, end: nat)
    requires a > 0
  {
    forall p :: IsPath(a, p) && First(a, p) >= end ==> At(s, p) == At(s0, p)
  }

  lemma SameSelf(a: nat, s: State, end: nat)
    requires a > 0
    ensures SameBeyond(a, s, s, end)
  {
  }

  lemma FirstSelf(a: nat, k: nat)
    requires a > 0 && k < Limit(a)
    ensures IsPath(a, PathOf(a, k)) && First(a, PathOf(a, k)) == k
  {
    IndexOfPath(a, k);
    hide PathOf, Limit, IndexOf;
    assert Full(PathOf(a, k)) == PathOf(a, k);
  }

  lemma KillBeyond(a: nat, s0: State, s: State, t: State, k: nat, end: nat)
    requires a > 0 && k < Limit(a) && k < end && SameBeyond(a, s0, s, end)
    requires forall r :: At(t, r) == if r == PathOf(a, k) then 0 else At(s, r)
    ensures SameBeyond(a, s0, t, end)
  {
    hide PathOf, Limit, At, First;
    FirstSelf(a, k);
  }

  /** What one release does to the books: one pointer less, and no block lost. */
  lemma KillCounts(s: State, p: Path)
    ensures Used(Killed(s, p).ptr) == Used(s.ptr) - (if At(s, p) != 0 then 1 else 0)
    ensures Total(Killed(s, p).free, Killed(s, p).ptr) == Total(s.free, s.ptr)
  {
    UsedMore(s.ptr, p, 0);
    if At(s, p) != 0 {
      GiveTotal(s.free, s.ptr, p);
    } else {
      SameTotal(s.free, s.ptr, p);
    }
  }

  lemma SameTotal(free: set<nat>, ptr: map<Path, nat>, p: Path)
    requires p in ptr ==> ptr[p] == 0
    ensures Total(free, ptr[p := 0]) == Total(free, ptr)
  {
    var same := ptr[p := 0];
    forall b ensures b in Total(free, same) <==> b in Total(free, ptr) {
      if b in Total(free, ptr) && b !in free {
        var q :| q in ptr && ptr[q] != 0 && ptr[q] == b;
        assert q in same && same[q] == b;
      }
      if b in Total(free, same) && b !in free {
        var q :| q in same && same[q] != 0 && same[q] == b;
        assert q in ptr && ptr[q] == b;
      }
    }
  }

  /** The pointer of block k counts no more; the block it names, if any, is marked as free. */
  method Kill(o: Ext2Object, ghost k: nat, bno: nat)
    requires o.a > 0 && Ok(o.a, o.St()) && k < Limit(o.a) && bno == Ptr(o.a, o.St(), k)
    requires PathOf(o.a, k) !in o.dead && HasPlace(o.St(), PathOf(o.a, k))
    modifies o`free, o`ptr, o`dead
    ensures Ok(o.a, o.St()) && o.dead == old(o.dead)[PathOf(o.a, k) := bno]
    ensures if bno == 0 then o.free == old(o.free) else bno !in old(o.free) && o.free == old(o.free) + {bno}
    ensures forall j :: Ptr(o.a, o.St(), j) == if j == k then 0 else old(Ptr(o.a, o.St(), j))
    ensures forall j: nat :: j < Limit(o.a) && old(NodesThere(o.a, o.St(), j)) ==> NodesThere(o.a, o.St(), j)
    ensures forall r :: At(o.St(), r) == if r == PathOf(o.a, k) then 0 else old(At(o.St(), r))
    ensures Used(o.ptr) == old(Used(o.ptr)) - (if bno != 0 then 1 else 0) &&
            Total(o.free, o.ptr) == old(Total(o.free, o.ptr))
  {
    ghost var s, p := o.St(), PathOf(o.a, k);
    PathIsLeaf(o.a, k);
    KillKeeps(o.a, s, p);
    KillPtr(o.a, s, k);
    KillCounts(s, p);
    if bno != 0 {
      PtrOwned(o.a, s, k);
    }
    assert forall r :: At(Killed(s, p), r) == if r == p then 0 else At(s, r);
    hide Ok, Used, Total, NodesThere, Limit, PathOf, At;
    if bno != 0 {
      o.free := o.free + {bno};
    }
    o.ptr, o.dead := o.ptr[p := 0], o.dead[p := bno];
    assert o.St() == Killed(s, p);
  }

  /** The places of the pointers from lo up to hi still hold what they held. */
  ghost predicate Stale(a: nat, s0: State, s: State, lo: nat, hi: nat)
    requires a > 0
  {
    forall j: nat :: lo <= j < hi && j < Limit(a) ==>
      PathOf(a, j) in s.dead && s.dead[PathOf(a, j)] == Ptr(a, s0, j)
  }

  /** The data blocks from start up to `upto` are released, the other pointers as they were. */
  ghost predicate Released(a: nat, s0: State, s: State, start: nat, upto: nat)
    requires a > 0
  {
    NoneIn(a, s, start, upto) && DeadIn(a, s, start, upto) && Stale(a, s0, s, start, upto) &&
    forall j: nat :: !(start <= j < upto) ==> Ptr(a, s, j) == Ptr(a, s0, j)
  }

  lemma ReleasedMore(a: nat, s0: State, s: State, start: nat, k: nat, t: State)
    requires a > 0 && k < Limit(a) && start <= k && Released(a, s0, s, start, k)
    requires t.dead == s.dead[PathOf(a, k) := Ptr(a, s, k)]
    requires forall j :: Ptr(a, t, j) == if j == k then 0 else Ptr(a, s, j)
    ensures Released(a, s0, t, start, k + 1)
  {
    hide Ptr, PathOf, Limit, IndexOf;
    IndexOfPath(a, k);
    forall j: nat | start <= j < k + 1 && j < Limit(a)
      ensures PathOf(a, j) in t.dead && t.dead[PathOf(a, j)] == Ptr(a, s0, j)
    {
      if PathOf(a, j) == PathOf(a, k) {
        PathInjective(a, j, k);
      }
    }
  }

  /** A pointer of the range that was not released yet, in an indirect block that is there. */
  lemma PlaceReady(a: nat, s0: State, s: State, start: nat, upto: nat, k: nat, m: nat)
    requires a > 0 && Released(a, s0, s, start, upto) && AllThere(a, s, start, m) && start <= upto <= k < start + m
    ensures k < Limit(a) && PathOf(a, k) !in s.dead && HasPlace(s, PathOf(a, k))
  {
    hide PathOf, Limit, IndexOf, Ptr, Stale;
    IndexOfPath(a, k);
    assert NodesThere(a, s, k);
  }

  /** ext2_block_destroy of a run: every block of it is marked as free, none of which was. */
  method Destroy(o: Ext2Object, bno: nat, n: nat, ghost index: nat, ghost s0: State, ghost start: nat,
                 ghost end: nat, ghost m: nat)
    requires o.a > 0 && Ok(o.a, o.St()) && bno > 0 && start <= index && index + n <= end <= Limit(o.a)
    requires InRow(o.a, o.St(), index, n, bno) && Released(o.a, s0, o.St(), start, index) && index + n <= start + m
    requires AllThere(o.a, o.St(), start, m) && SameBeyond(o.a, s0, o.St(), end)
    modifies o`free, o`ptr, o`dead
    ensures Ok(o.a, o.St()) && Released(o.a, s0, o.St(), start, index + n)
    ensures AllThere(o.a, o.St(), start, m) && SameBeyond(o.a, s0, o.St(), end)
    ensures forall b :: b in o.free <==> b in old(o.free) || bno <= b < bno + n
    ensures forall b :: bno <= b < bno + n ==> b !in old(o.free)
    ensures Used(o.ptr) == old(Used(o.ptr)) - n && Total(o.free, o.ptr) == old(Total(o.free, o.ptr))
    ensures |o.free| == |old(o.free)| + n && SameNodes(o.a, old(o.St()), o.St())
  {
    hide Ok, Used, Total, SameBeyond, NodesThere, Limit, PathOf, Ptr, Released, At, HasPlace, SameNodes;
    ghost var s := o.St();
    NodesSelf(o.a, s);
    var i := 0;
    while i < n
      invariant i <= n && Ok(o.a, o.St()) && Released(o.a, s0, o.St(), start, index + i)
      invariant AllThere(o.a, o.St(), start, m) && SameBeyond(o.a, s0, o.St(), end)
      invariant forall b :: b in o.free <==> b in old(o.free) || bno <= b < bno + i
      invariant forall b :: bno <= b < bno + i ==> b !in old(o.free)
      invariant forall j: nat :: j >= index + i ==> Ptr(o.a, o.St(), j) == Ptr(o.a, s, j)
      invariant Used(o.ptr) == old(Used(o.ptr)) - i && Total(o.free, o.ptr) == old(Total(o.free, o.ptr))
      invariant |o.free| == |old(o.free)| + i && SameNodes(o.a, s, o.St())
    {
      ghost var t := o.St();
      PlaceReady(o.a, s0, t, start, index + i, index + i, m);
      Kill(o, index + i, bno + i);
      ReleasedMore(o.a, s0, t, start, index + i, o.St());
      KillBeyond(o.a, s0, t, o.St(), index + i, end);
      KillNodes(o.a, s, t, o.St(), index + i);
      i := i + 1;
    }
  }

  ghost predicate SameNodes(a: nat, s: State, t: State) {
    forall q :: IsNode(a, q) ==> At(t, q) == At(s, q)
  }

  lemma NodesSelf(a: nat, s: State)
    ensures SameNodes(a, s, s)
  {
  }

  lemma KillNodes(a: nat, s: State, t: State, u: State, k: nat)
    requires a > 0 && k < Limit(a) && SameNodes(a, s, t)
    requires forall r :: At(u, r) == if r == PathOf(a, k) then 0 else At(t, r)
    ensures SameNodes(a, s, u)
  {
    hide PathOf, Limit, At;
    PathIsLeaf(a, k);
  }

  lemma ReleasedLooked(a: nat, s0: State, s: State, start: nat, upto: nat, t: State)
    requires a > 0 && Released(a, s0, s, start, upto) && Looked(a, s, t)
    ensures Released(a, s0, t, start, upto)
  {
    LookedPtr(a, s, t);
    LookedKeys(a, s, t);
    hide Ptr, Looked;
  }

  lemma BeyondLooked(a: nat, s0: State, s: State, t: State, end: nat, k: nat)
    requires a > 0 && SameBeyond(a, s0, s, end) && k < Limit(a) && k < end
    requires forall q :: At(t, q) != At(s, q) ==> OnWay(q, PathOf(a, k))
    ensures SameBeyond(a, s0, t, end)
  {
    hide Limit, PathOf, First, OnWay;
    forall p | IsPath(a, p) && First(a, p) >= end ensures At(t, p) == At(s0, p) {
      if At(t, p) != At(s, p) {
        FirstOnWay(a, p, k);
      }
    }
  }

  lemma WeightParts(sectors: nat, n: nat, k: nat)
    ensures Weight(sectors, n + k) == Weight(sectors, n) + Weight(sectors, k)
  {
    Times(n, k, sectors);
  }

  // What the first loop needs: it looks a block up before it releases the run that ends there

  /** The length of the run of blocks, consecutive on disk, that ends before block k and is still to be released. */
  ghost function Run(a: nat, s: State, start: nat, k: nat): (r: nat)
    ensures r <= if start <= k then k - start else 0
    decreases k
  {
    if k <= start || Ptr(a, s, k - 1) == 0 then 0
    else
      var r := Run(a, s, start, k - 1);
      if r > 0 && Ptr(a, s, k - 1) == Ptr(a, s, k - 2) + 1 then r + 1 else 1
  }

  /** The blocks from lo up to hi that the file has. */
  ghost function Holding(a: nat, s: State, lo: nat, hi: nat): set<nat> {
    set k: nat | lo <= k < hi && Ptr(a, s, k) != 0
  }

  lemma {:induction false} HoldingMore(a: nat, s: State, lo: nat, i: nat, j: nat)
    requires lo <= i <= j && forall k: nat :: i <= k < j ==> Ptr(a, s, k) != 0
    ensures |Holding(a, s, lo, j)| == |Holding(a, s, lo, i)| + (j - i)
    decreases j
  {
    hide Ptr;
    if i < j {
      HoldingMore(a, s, lo, i, j - 1);
      assert Holding(a, s, lo, j) == Holding(a, s, lo, j - 1) + {j - 1};
    }
  }

  lemma HoldingNone(a: nat, s: State, lo: nat)
    ensures Holding(a, s, lo, lo) == {}
  {
  }

  lemma HoldingHole(a: nat, s: State, lo: nat, k: nat)
    requires lo <= k && Ptr(a, s, k) == 0
    ensures Holding(a, s, lo, k + 1) == Holding(a, s, lo, k)
  {
    hide Ptr;
  }

  /**
   * When block k is looked up the runs before the last are free again; with those, the free blocks are enough
   * for the indirect blocks missing on the ways to the blocks up to it.
   */
  ghost predicate Suffices(a: nat, s: State, start: nat, k: nat) {
    |Lacking(a, s, start, k + 1)| <= |s.free| + |Holding(a, s, start, k - Run(a, s, start, k))|
  }

  /** Exactly then a file can be cut off: what a caller sees before. */
  ghost predicate CanCut(a: nat, s: State, start: nat, end: nat) {
    forall k: nat :: start <= k < end ==> Suffices(a, s, start, k)
  }

  /** The blocks up to `block` have been looked up, those up to the pending run released. */
  ghost predicate Tally(a: nat, s0: State, s: State, start: nat, block: nat, run: nat) {
    start <= block && run == Run(a, s0, start, block) && CanCut(a, s0, start, block) &&
    Opened(a, s0, s, start, block, -|Holding(a, s0, start, block - run)|)
  }

  lemma TallyNothing(a: nat, s: State, start: nat)
    ensures Tally(a, s, s, start, start, 0)
  {
    OpenedNothing(a, s, start);
    assert Holding(a, s, start, start) == {};
  }

  /** After the lookup of the next block: it was possible, or was not. */
  ghost predicate TallyLooked(a: nat, s0: State, s: State, start: nat, block: nat, run: nat) {
    start <= block && run == Run(a, s0, start, block) && CanCut(a, s0, start, block + 1) &&
    Opened(a, s0, s, start, block + 1, -|Holding(a, s0, start, block - run)|)
  }

  lemma TallyLook(a: nat, s0: State, s: State, t: State, start: nat, block: nat, run: nat, found: bool)
    requires Tally(a, s0, s, start, block, run) && Got(a, s, t, block, found) && block < Limit(a)
    ensures found ==> TallyLooked(a, s0, t, start, block, run)
    ensures !found ==> !Suffices(a, s0, start, block)
  {
    hide PathOf, Limit, Missing, Lacking, Looked, Reached, NodesFrom, Holding, Run, OnWay, At;
    var spent := -|Holding(a, s0, start, block - run)|;
    if found {
      OpenedNext(a, s0, s, t, start, block, spent);
      assert Suffices(a, s0, start, block);
    } else {
      OpenedShort(a, s0, s, start, block, spent, block + 1);
    }
  }

  /** The pending run is released. */
  lemma TallyRun(a: nat, s0: State, s: State, t: State, start: nat, block: nat, m: nat, n: nat)
    requires n <= block && start + n <= block && Opened(a, s0, s, start, m, -|Holding(a, s0, start, block - n)|)
    requires SameNodes(a, s, t) && |t.free| == |s.free| + n
    requires forall k: nat :: block - n <= k < block ==> Ptr(a, s0, k) != 0
    ensures Opened(a, s0, t, start, m, -|Holding(a, s0, start, block)|)
  {
    hide Opened, Holding, Ptr, At, IsNode;
    HoldingMore(a, s0, start, block - n, block);
    var back: int := n;
    OpenedSpend(a, s0, s, t, start, m, -|Holding(a, s0, start, block - n)|, -back);
  }

  lemma TallyHole(a: nat, s0: State, s: State, t: State, start: nat, block: nat)
    requires CanCut(a, s0, start, block + 1) && start <= block && Ptr(a, s0, block) == 0
    requires Opened(a, s0, s, start, block + 1, -|Holding(a, s0, start, block)|) && t.free == s.free
    requires SameNodes(a, s, t)
    ensures Tally(a, s0, t, start, block + 1, 0)
  {
    hide Opened, Holding, Ptr, At, CanCut, IsNode;
    HoldingHole(a, s0, start, block);
    OpenedSpend(a, s0, s, t, start, block + 1, -|Holding(a, s0, start, block)|, 0);
  }

  /** A run begins, after the one before was released. */
  lemma TallyFirst(a: nat, s0: State, s: State, start: nat, block: nat)
    requires CanCut(a, s0, start, block + 1) && start <= block && Ptr(a, s0, block) != 0
    requires Run(a, s0, start, block) > 0 ==> Ptr(a, s0, block) != Ptr(a, s0, block - 1) + 1
    requires Opened(a, s0, s, start, block + 1, -|Holding(a, s0, start, block)|)
    ensures Tally(a, s0, s, start, block + 1, 1)
  {
    hide Opened, Holding, Ptr, CanCut;
  }

  /** The pending run goes on. */
  lemma TallyMore(a: nat, s0: State, s: State, start: nat, block: nat, run: nat)
    requires TallyLooked(a, s0, s, start, block, run) && run > 0 && Ptr(a, s0, block) != 0
    requires Ptr(a, s0, block) == Ptr(a, s0, block - 1) + 1
    ensures Tally(a, s0, s, start, block + 1, run + 1)
  {
    hide Opened, Holding, Ptr, CanCut;
  }

  lemma TallyThere(a: nat, s0: State, s: State, start: nat, block: nat, run: nat)
    requires a > 0 && Tally(a, s0, s, start, block, run) && block <= Limit(a)
    ensures AllThere(a, s, start, block - start)
  {
    hide Limit, PathOf, NodesThere, Holding, Lacking, NodesFrom, CanCut;
    forall j | start <= j < block ensures NodesThere(a, s, j) {
      assert Reached(a, s, j);
    }
  }

  /** The pointer of the next block of the range, looked up with its indirect blocks in place. */
  method LookNext(o: Ext2Object, block: nat, ghost s0: State, ghost start: nat, ghost run: nat, ghost end: nat)
      returns (err: int, bno: nat)
    requires o.a > 0 && Ok(o.a, o.St()) && start + run <= block < end <= Limit(o.a)
    requires Released(o.a, s0, o.St(), start, block - run) && SameBeyond(o.a, s0, o.St(), end) &&
             Tally(o.a, s0, o.St(), start, block, run)
    modifies o
    ensures err <= 0 && Ok(o.a, o.St()) && o.Excess() == old(o.Excess()) &&
            Total(o.free, o.ptr) == old(Total(o.free, o.ptr))
    ensures Released(o.a, s0, o.St(), start, block - run) && SameBeyond(o.a, s0, o.St(), end)
    ensures forall k :: Ptr(o.a, o.St(), k) == old(Ptr(o.a, o.St(), k))
    ensures err == EOK ==> AllThere(o.a, o.St(), start, block + 1 - start) && bno == Ptr(o.a, o.St(), block)
    ensures err == EOK ==> Strayed(old(o.St()), o.St(), false)
    ensures err == EOK ==> TallyLooked(o.a, s0, o.St(), start, block, run)
    ensures err < 0 ==>
            err == -ENOSPC && !Suffices(o.a, s0, start, block) && AllThere(o.a, o.St(), start, block - start)
  {
    hide Ok, Ptr, Looked, Limit, PathOf, Used, Weight, NodesThere, Total, SameBeyond, Released, At, OnWay, Strayed,
         Strands, Missing, Tally, TallyLooked, Suffices;
    ghost var s := o.St();
    TallyThere(o.a, s0, s, start, block, run);
    var c;
    err, c := o.Get(block);
    assert Got(o.a, s, o.St(), block, err == EOK);
    TallyLook(o.a, s0, s, o.St(), start, block, run, err == EOK);
    bno := 0;
    ReleasedLooked(o.a, s0, s, start, block - run, o.St());
    LookedPtr(o.a, s, o.St());
    LookedThere(o.a, s, o.St(), start, block - start);
    BeyondLooked(o.a, s0, s, o.St(), end, block);
    if err == EOK {
      AliveValue(o, c, block, s0, start, block - run);
      bno := o.Value(c);
    }
  }

  lemma AliveValue(o: Ext2Object, c: Cell, k: nat, s0: State, start: nat, upto: nat)
    requires o.a > 0 && k < Limit(o.a) && o.Points(c, k) && upto <= k && Released(o.a, s0, o.St(), start, upto)
    ensures CellIn(c, o.block, o.ind) && o.Value(c) == Ptr(o.a, o.St(), k)
  {
    hide IndexOf;
    IndexOfPath(o.a, k);
  }

  lemma NoneReleased(a: nat, s: State, start: nat)
    requires a > 0 && s.dead == map[]
    ensures Released(a, s, s, start, start)
  {
  }

  lemma NoWeight(sectors: nat)
    ensures Weight(sectors, 0) == 0
  {
  }

  /** A run of the range is released and counted. */
  method DestroyRun(o: Ext2Object, first: nat, run: nat, sofar: nat, ghost index: nat, ghost s0: State,
                    ghost start: nat, ghost end: nat, ghost m: nat)
    returns (freed: nat)
    requires o.a > 0 && Ok(o.a, o.St()) && first > 0 && start <= index && index + run <= end <= Limit(o.a)
    requires InRow(o.a, o.St(), index, run, first) && Released(o.a, s0, o.St(), start, index)
    requires AllThere(o.a, o.St(), start, m) && SameBeyond(o.a, s0, o.St(), end) && index + run <= start + m
    requires Opened(o.a, s0, o.St(), start, start + m, -|Holding(o.a, s0, start, index)|)
    modifies o`free, o`ptr, o`dead
    ensures Ok(o.a, o.St()) && Released(o.a, s0, o.St(), start, index + run)
    ensures AllThere(o.a, o.St(), start, m) && SameBeyond(o.a, s0, o.St(), end)
    ensures o.Excess() - Weight(o.sectors, freed) == old(o.Excess()) - Weight(o.sectors, sofar)
    ensures Total(o.free, o.ptr) == old(Total(o.free, o.ptr))
    ensures Opened(o.a, s0, o.St(), start, start + m, -|Holding(o.a, s0, start, index + run)|)
    ensures freed - sofar == |Holding(o.a, s0, start, index + run)| - |Holding(o.a, s0, start, index)|
  {
    hide Ok, Ptr, Looked, Limit, PathOf, Used, Weight, NodesThere, Total, SameBeyond, Released, At, Strayed, Opened,
         Holding, SameNodes;
    ghost var s := o.St();
    RunThere(o.a, s0, s, start, index, run, first);
    Destroy(o, first, run, index, s0, start, end, m);
    TallyRun(o.a, s0, s, o.St(), start, index + run, start + m, run);
    HoldingMore(o.a, s0, start, index, index + run);
    freed := sofar + run;
    WeightParts(o.sectors, Used(o.ptr), run);
    WeightParts(o.sectors, sofar, run);
  }

  lemma RunThere(a: nat, s0: State, s: State, start: nat, index: nat, run: nat, first: nat)
    requires a > 0 && Released(a, s0, s, start, index) && InRow(a, s, index, run, first) && first > 0
    ensures forall k: nat :: index <= k < index + run ==> Ptr(a, s0, k) != 0
  {
    hide Ptr, DeadIn, Stale, NoneIn;
  }

  lemma StrayedStill(s0: State, s: State, t: State)
    requires Strayed(s0, s, false) && t.slots == s.slots && t.strays == s.strays
    ensures Strayed(s0, t, false)
  {
  }

  lemma OthersHeld(a: nat, s0: State, s: State, start: nat, upto: nat, k: nat)
    requires a > 0 && Released(a, s0, s, start, upto) && upto <= k
    ensures Ptr(a, s, k) == Ptr(a, s0, k)
  {
  }

  /** The first loop of _ext2_file_truncate at `block`, with a run of blocks before it still to be released. */
  ghost predicate Releasing(o: Ext2Object, s0: State, start: nat, block: nat, end: nat, first: nat, run: nat)
    reads o
  {
    o.a > 0 && Ok(o.a, o.St()) && start + run <= block <= end <= Limit(o.a) &&
    Released(o.a, s0, o.St(), start, block - run) &&
    (run > 0 ==> first > 0 && InRow(o.a, o.St(), block - run, run, first)) &&
    SameBeyond(o.a, s0, o.St(), end) && Tally(o.a, s0, o.St(), start, block, run)
  }

  /** After a lookup: the pending run ends here, or goes on. */
  method ReleaseFound(o: Ext2Object, block: nat, bno: nat, first: nat, run: nat, sofar: nat, ghost s0: State,
                      ghost start: nat, ghost end: nat) returns (next: nat, length: nat, freed: nat)
    requires o.a > 0 && Ok(o.a, o.St()) && start + run <= block < end <= Limit(o.a)
    requires Released(o.a, s0, o.St(), start, block - run) && SameBeyond(o.a, s0, o.St(), end)
    requires run > 0 ==> first > 0 && InRow(o.a, o.St(), block - run, run, first)
    requires AllThere(o.a, o.St(), start, block + 1 - start) && bno == Ptr(o.a, o.St(), block)
    requires TallyLooked(o.a, s0, o.St(), start, block, run) && sofar == |Holding(o.a, s0, start, block - run)|
    modifies o`free, o`ptr, o`dead
    ensures Releasing(o, s0, start, block + 1, end, next, length)
    ensures freed == |Holding(o.a, s0, start, block + 1 - length)|
    ensures o.Excess() - Weight(o.sectors, freed) == old(o.Excess()) - Weight(o.sectors, sofar) &&
            Total(o.free, o.ptr) == old(Total(o.free, o.ptr))
  {
    hide Ok, Ptr, Limit, PathOf, Used, Weight, NodesThere, Total, SameBeyond, Released, At, Tally, CanCut, Holding,
         Opened, HasPlace, Run, SameNodes;
    next, length, freed := first, run, sofar;
    ghost var s := o.St();
    OthersHeld(o.a, s0, s, start, block - run, block);
    if run > 0 {
      OthersHeld(o.a, s0, s, start, block - run, block - 1);
      assert Ptr(o.a, s, block - 1) == first + (run - 1);
      if bno == first + run {
        length := run + 1;
        TallyMore(o.a, s0, s, start, block, run);
        return;
      }
      freed := DestroyRun(o, first, run, freed, block - run, s0, start, end, block + 1 - start);
      OthersHeld(o.a, s0, o.St(), start, block, block);
    }
    ghost var t := o.St();
    if bno == 0 {
      PlaceReady(o.a, s0, t, start, block, block, block + 1 - start);
      Kill(o, block, 0);
      ReleasedMore(o.a, s0, t, start, block, o.St());
      KillBeyond(o.a, s0, t, o.St(), block, end);
      NodesSelf(o.a, t);
      KillNodes(o.a, t, t, o.St(), block);
      TallyHole(o.a, s0, t, o.St(), start, block);
      HoldingHole(o.a, s0, start, block);
      length := 0;
    } else {
      next, length := bno, 1;
      TallyFirst(o.a, s0, t, start, block);
    }
  }

  /** The first loop of _ext2_file_truncate: the data blocks from start on are released, in runs, up to `at`. */
  method ReleaseData(o: Ext2Object, start: nat, end: nat) returns (err: int, freed: nat, ghost at: nat)
    requires o.a > 0 && Ok(o.a, o.St()) && o.dead == map[] && start <= end <= Limit(o.a)
    modifies o
    ensures err <= 0 && Ok(o.a, o.St())
    ensures err == EOK <==> old(CanCut(o.a, o.St(), start, end))
    ensures err == EOK ==> Released(o.a, old(o.St()), o.St(), start, end) && AllThere(o.a, o.St(), start, end - start)
    ensures err == EOK ==> SameBeyond(o.a, old(o.St()), o.St(), end) && Strayed(old(o.St()), o.St(), false)
    ensures o.Excess() == old(o.Excess()) + Weight(o.sectors, freed) &&
            Total(o.free, o.ptr) == old(Total(o.free, o.ptr))
    ensures err < 0 ==> err == -ENOSPC && start <= at < end && old(CanCut(o.a, o.St(), start, at)) &&
                        !old(Suffices(o.a, o.St(), start, at)) && AllThere(o.a, o.St(), start, at - start) &&
                        Released(o.a, old(o.St()), o.St(), start, at - old(Run(o.a, o.St(), start, at))) &&
                        freed == |old(Holding(o.a, o.St(), start, at - Run(o.a, o.St(), start, at)))|
  {
    hide Ok, Ptr, Looked, Limit, PathOf, Used, Weight, NodesThere, Total, SameBeyond, Released, At, Strayed, CanCut,
         Tally, TallyLooked, Suffices, Run, Opened, Holding;
    ghost var s0 := o.St();
    HoldingNone(o.a, s0, start);
    NoneReleased(o.a, s0, start);
    SameSelf(o.a, s0, end);
    SameWrote(o.a, s0);
    TallyNothing(o.a, s0, start);
    var block: nat, first: nat, run: nat := start, 0, 0;
    freed := 0;
    NoWeight(o.sectors);
    while block < end
      invariant start <= block && Releasing(o, s0, start, block, end, first, run) && Strayed(s0, o.St(), false)
      invariant o.Excess() == old(o.Excess()) + Weight(o.sectors, freed) &&
                Total(o.free, o.ptr) == old(Total(o.free, o.ptr)) && freed == |Holding(o.a, s0, start, block - run)|
    {
      var bno;
      ghost var before := o.St();
      err, bno := LookNext(o, block, s0, start, run, end);
      if err < 0 {
        at := block;
        TallyTold(o.a, s0, before, start, block, run, end);
        return;
      }
      StrayedTrans(s0, before, o.St(), false, false);
      ghost var looked := o.St();
      first, run, freed := ReleaseFound(o, block, bno, first, run, freed, s0, start, end);
      StrayedStill(s0, looked, o.St());
      block := block + 1;
    }
    TallyThere(o.a, s0, o.St(), start, end, run);
    TallyDone(o.a, s0, o.St(), start, end, run);
    if run > 0 {
      ghost var looked := o.St();
      freed := DestroyRun(o, first, run, freed, block - run, s0, start, end, end - start);
      StrayedStill(s0, looked, o.St());
    }
    err, at := EOK, end;
  }

  lemma TallyTold(a: nat, s0: State, s: State, start: nat, block: nat, run: nat, end: nat)
    requires Tally(a, s0, s, start, block, run) && !Suffices(a, s0, start, block) && start <= block < end
    ensures run == Run(a, s0, start, block) && CanCut(a, s0, start, block) && !CanCut(a, s0, start, end)
  {
    hide Suffices, Opened, Holding, Run;
  }

  lemma TallyDone(a: nat, s0: State, s: State, start: nat, end: nat, run: nat)
    requires Tally(a, s0, s, start, end, run)
    ensures CanCut(a, s0, start, end) && Opened(a, s0, s, start, end, -|Holding(a, s0, start, end - run)|)
  {
  }

  // ---------------------------------------------------------------------------------------
  // Clearing the pointers, and releasing the indirect blocks

  /** Only zeros follow in the path: this pointer is on the way to the first block below it. */
  ghost predicate ZeroFrom(p: Path, m: nat) {
    forall i :: m <= i < |p| ==> p[i] == 0
  }

  lemma SameFirst(a: nat, r: Path, k: nat)
    requires a > 0 && k < Limit(a) && IsPath(a, r) && First(a, r) == k
    ensures var p := PathOf(a, k); 0 < |r| <= |p| && r == p[..|r|] && ZeroFrom(p, |r|)
  {
    hide IndexOf, PathOf, Limit;
    FullIsLeaf(a, r);
    PathOfIndex(a, Full(r));
  }

  /** An indirect block has no pointer left when its first one is gone and all after it were. */
  lemma ChildrenGone(a: nat, s: State, k: nat, m: nat)
    requires a > 0 && k < Limit(a) && EndsAt(a, s, k + 1)
    requires var p := PathOf(a, k); 1 <= m < |p| && ZeroFrom(p, m) && At(s, p[..m + 1]) == 0
    ensures var q := PathOf(a, k)[..m]; IsNode(a, q) && NoChildren(a, s, q)
  {
    hide PathOf, Limit, First, At;
    var p := PathOf(a, k);
    var q := p[..m];
    FirstOnWay(a, q, k);
    forall i: nat | i < a ensures At(s, Child(q, i)) == 0 {
      FirstChild(a, q, i);
      if First(a, Child(q, i)) == k {
        SameFirst(a, Child(q, i), k);
      }
    }
  }

  /** The indirect blocks of level k and above on the way to p are in their slots. */
  ghost predicate FoundFrom(s: State, p: Path, k: nat) {
    forall j: nat :: k <= j && j + 2 <= |p| ==> FoundOk(s, p, j, true)
  }

  lemma RemovedFound(a: nat, s: State, p: Path, k: nat)
    requires Ok(a, s) && IsLeaf(a, p) && k + 2 <= |p| && FoundFrom(s, p, k)
    requires var q := p[..|p| - 1 - k]; CellIndexed(a, s, q) && CellIndexed(a, Dropped(s, At(s, q)), q) && At(s, q) != 0
    ensures FoundFrom(Removed(a, s, p[..|p| - 1 - k]), p, k + 1)
  {
    var q := p[..|p| - 1 - k];
    DropOnly(a, s, q);
    var t := Removed(a, s, q);
    forall j: nat | k + 1 <= j && j + 2 <= |p| ensures FoundOk(t, p, j, true) {
      assert FoundOk(s, p, j, true);
      assert p[..|p| - 1 - j] != q;
    }
  }

  /** ext2_iblock_free: the block is free again, i_blocks counts it no more, and no slot has it. */
  method IblockFree(o: Ext2Object, bno: nat)
    requires bno == 0 || bno !in o.free
    modifies o`free, o`blocks, o`ind
    ensures bno == 0 ==> o.free == old(o.free) && o.blocks == old(o.blocks) && o.ind == old(o.ind)
    ensures bno != 0 ==> o.free == old(o.free) + {bno} && o.blocks == old(o.blocks) - o.sectors
    ensures bno != 0 ==> o.ind == Dropped(old(o.St()), bno).slots
  {
    if bno == 0 {
      return;
    }
    o.free := o.free + {bno};
    o.blocks := o.blocks - o.sectors;
    var d := 0;
    while d < |o.ind|
      invariant d <= |o.ind| == |old(o.ind)| && o.free == old(o.free) + {bno} && o.blocks == old(o.blocks) - o.sectors
      invariant forall e :: 0 <= e < |o.ind| ==>
                o.ind[e] == if e < d && Held(old(o.St()), e, bno) then Empty else old(o.ind)[e]
    {
      if o.ind[d].Holds? && o.ind[d].bno == bno {
        o.ind := o.ind[d := Empty];
      }
      d := d + 1;
    }
  }

  /**
   * The indirect block of level k on the way to p is released and the pointer to it cleared.  What it still
   * names is named by nothing then.
   */
  method RemoveLevel(o: Ext2Object, c: Cell, k: nat, ghost p: Path)
    requires Ok(o.a, o.St()) && IsLeaf(o.a, p) && k + 2 <= |p| <= 4 && FoundFrom(o.St(), p, k) &&
             NoneBelowLevel(o.St(), k)
    requires c == if |p| == k + 2 then InInode(p[0]) else InBlock(k + 1, p[|p| - 2 - k])
    requires NoneDeadUnder(o.St(), p[..|p| - 1 - k])
    modifies o`free, o`blocks, o`ind, o`block, o`ptr
    ensures Ok(o.a, o.St()) && FoundFrom(o.St(), p, k + 1) && NoneBelowLevel(o.St(), k + 1)
    ensures forall r :: At(o.St(), r) == if p[..|p| - 1 - k] <= r then 0 else old(At(o.St(), r))
    ensures old(At(o.St(), p[..|p| - 1 - k])) !in old(o.free) &&
            o.free == old(o.free) + {old(At(o.St(), p[..|p| - 1 - k]))}
    ensures old(NoChildren(o.a, o.St(), p[..|p| - 1 - k])) ==>
              o.Excess() == old(o.Excess()) && Total(o.free, o.ptr) == old(Total(o.free, o.ptr))
    ensures Strayed(old(o.St()), o.St(), false)
  {
    hide Ok, IsPath, Used, Weight, Total, NoChildren;
    ghost var s, q := o.St(), p[..|p| - 1 - k];
    assert FoundOk(s, p, k, true);
    assert |p| > k + 2 ==> FoundOk(s, p, k + 1, true);
    PrefixReady(o.a, s, c, k, p);
    NodeAlive(o.a, s, q);
    NodeUsed(o.a, s, q);
    CellShows(o.a, s, c, q);
    RemoveKeeps(o.a, s, q);
    RemovedFound(o.a, s, p, k);
    RemovedSlots(o.a, s, q, k);
    if NoChildren(o.a, s, q) {
      RemovedCounts(o.a, s, q);
      WeightMore(o.sectors, Used(s.ptr) - 1);
    }
    hide FoundOk, FoundFrom, CellFor, ParentReady, NoneBelowLevel, Strayed;
    var bno := o.Value(c);
    IblockFree(o, bno);
    DroppedCell(o.a, s, bno, c, q);
    o.SetCell(c, 0);
    o.ptr := Cut(o.ptr, q);
    assert o.St() == Removed(o.a, s, q);
  }

  lemma NodeUsed(a: nat, s: State, q: Path)
    requires Ok(a, s) && At(s, q) != 0
    ensures At(s, q) !in s.free
  {
  }

  lemma RemovedSlots(a: nat, s: State, q: Path, k: nat)
    requires IsNode(a, q) && Level(q) == k < 3 && CellIndexed(a, s, q) && CellIndexed(a, Dropped(s, At(s, q)), q)
    requires Held(s, k, At(s, q)) && NoneBelowLevel(s, k)
    ensures NoneBelowLevel(Removed(a, s, q), k + 1) && Strayed(s, Removed(a, s, q), false)
  {
  }

  /** Below an indirect block without pointers there is nothing. */
  lemma {:induction false} BelowNone(a: nat, s: State, q: Path, r: Path)
    requires Ok(a, s) && IsNode(a, q) && NoChildren(a, s, q) && q < r
    ensures At(s, r) == 0
    decreases |r|
  {
    if IsPath(a, r) {
      var n := |r| - 1;
      assert r == Child(r[..n], r[n]);
      if n > |q| {
        BelowNone(a, s, q, r[..n]);
        assert IsNode(a, r[..n]) && CellOk(s, r[..n], r[n]);
      } else {
        assert r[..n] == q;
      }
    }
  }

  lemma RemovedCounts(a: nat, s: State, q: Path)
    requires Ok(a, s) && IsNode(a, q) && At(s, q) != 0 && NoChildren(a, s, q)
    ensures Used(s.ptr) > 0 && Used(Cut(s.ptr, q)) == Used(s.ptr) - 1
    ensures Total(s.free + {At(s, q)}, Cut(s.ptr, q)) == Total(s.free, s.ptr)
  {
    forall r | q < r ensures At(s, r) == 0 {
      BelowNone(a, s, q, r);
    }
    hide Ok, NoChildren, IsPath;
    var one, cut := s.ptr[q := 0], Cut(s.ptr, q);
    assert forall r :: At(s, r) != 0 && q <= r ==> r == q;
    UsedMore(s.ptr, q, 0);
    GiveTotal(s.free, s.ptr, q);
    forall r | r in one && one[r] != 0 ensures r in cut && cut[r] == one[r] {
      assert At(s, r) != 0;
    }
    assert q <= q;
    SameNamed(one, cut);
    SameTotals(s.free + {At(s, q)}, one, cut);
  }

  /** Pointers that differ in zeros only. */
  ghost predicate SamePointers(p: map<Path, nat>, q: map<Path, nat>) {
    (forall r :: r in p && p[r] != 0 ==> r in q && q[r] == p[r]) &&
    forall r :: r in q && q[r] != 0 ==> r in p && p[r] == q[r]
  }

  lemma SameNamed(p: map<Path, nat>, q: map<Path, nat>)
    requires SamePointers(p, q)
    ensures Used(p) == Used(q)
  {
    assert (set r | r in p && p[r] != 0) == (set r | r in q && q[r] != 0);
  }

  lemma SameTotals(free: set<nat>, p: map<Path, nat>, q: map<Path, nat>)
    requires SamePointers(p, q)
    ensures Total(free, p) == Total(free, q)
  {
    forall b ensures b in Total(free, p) <==> b in Total(free, q) {
      if b in Total(free, p) && b !in free {
        var r :| r in p && p[r] != 0 && p[r] == b;
        assert r in q && q[r] == b;
      }
      if b in Total(free, q) && b !in free {
        var r :| r in q && q[r] != 0 && q[r] == b;
        assert r in p && p[r] == b;
      }
    }
  }

  lemma DroppedCell(a: nat, s: State, n: nat, c: Cell, q: Path)
    requires CellIndexed(a, Dropped(s, n), q) && CellFor(c, q)
    ensures CellIn(c, s.root, Dropped(s, n).slots)
  {
  }

  /** The pointer, or one of an indirect block on the way to it, has its first block from lo up to hi. */
  ghost predicate CutBy(a: nat, r: Path, lo: nat, hi: nat)
    requires a > 0
  {
    exists m :: 1 <= m <= |r| && FirstIn(a, r[..m], lo, hi)
  }

  ghost predicate FirstIn(a: nat, q: Path, lo: nat, hi: nat)
    requires a > 0
  {
    IsPath(a, q) && lo <= First(a, q) < hi
  }

  /** Blocks that were named for data from `end` on only are not free. */
  ghost predicate BeyondHeld(a: nat, s1: State, s: State, end: nat)
    requires a > 0
  {
    forall p :: IsPath(a, p) && First(a, p) >= end && At(s1, p) != 0 ==> At(s1, p) !in s.free
  }

  /**
   * The walk back, begun in state s1, has come to `cur`: before it the released pointers wait to be cleared.
   * All pointers whose first block is between it and the end are gone, and all below them.
   */
  ghost predicate Clearing(a: nat, s0: State, s1: State, s: State, start: nat, cur: nat, end: nat)
    requires a > 0
  {
    DeadIn(a, s, start, cur) && NoneIn(a, s, start, cur) && start <= cur <= end && AllThere(a, s, start, cur - start) &&
    (forall j: nat :: j < start ==> Ptr(a, s, j) == Ptr(a, s0, j)) &&
    Pruned(a, s1, s, cur, end) && BeyondHeld(a, s1, s, end)
  }

  ghost predicate Pruned(a: nat, s1: State, s: State, cur: nat, end: nat)
    requires a > 0
  {
    forall p :: IsPath(a, p) ==> At(s, p) == if CutBy(a, p, cur, end) then 0 else At(s1, p)
  }

  /** Below, or at, a pointer of the path that only zeros follow. */
  ghost predicate Under(p: Path, r: Path) {
    exists m :: 1 <= m <= |p| && ZeroFrom(p, m) && p[..m] <= r
  }

  /**
   * After a step: the pointers to indirect blocks with block k as their first are gone, with all
   * below them, no others.
   */
  ghost predicate Emptied(a: nat, s: State, t: State, k: nat)
    requires a > 0 && k < Limit(a)
  {
    var p := PathOf(a, k);
    t.dead == s.dead - {p} && (forall r :: At(t, r) == if Under(p, r) then 0 else At(s, r)) && FreedOnly(s, t, p)
  }

  /** Only indirect blocks on the way to p became free. */
  ghost predicate FreedOnly(s: State, t: State, p: Path) {
    forall b :: b in t.free ==> b in s.free || OnWayTo(s, p, b)
  }

  ghost predicate OnWayTo(s: State, p: Path, b: nat) {
    exists m :: 1 <= m < |p| && At(s, p[..m]) == b && b != 0
  }

  /** The pointers that only zeros follow on the way to block k are those with block k as their first. */
  lemma ZeroFirst(a: nat, k: nat, m: nat)
    requires a > 0 && k < Limit(a) && 1 <= m <= |PathOf(a, k)|
    ensures IsPath(a, PathOf(a, k)[..m]) && First(a, PathOf(a, k)[..m]) <= k
    ensures First(a, PathOf(a, k)[..m]) == k <==> ZeroFrom(PathOf(a, k), m)
  {
    var p := PathOf(a, k);
    FirstSelf(a, k);
    hide PathOf, Limit, First;
    if m < |p| {
      FirstOnWay(a, p[..m], k);
    } else {
      assert p[..m] == p;
    }
  }

  lemma UnderFirst(a: nat, k: nat, r: Path)
    requires a > 0 && k < Limit(a) && IsPath(a, r)
    ensures Under(PathOf(a, k), r) <==> CutBy(a, r, k, k + 1)
  {
    hide PathOf, Limit, First;
    var p := PathOf(a, k);
    if Under(p, r) {
      var m :| 1 <= m <= |p| && ZeroFrom(p, m) && p[..m] <= r;
      ZeroFirst(a, k, m);
      assert r[..m] == p[..m];
      assert FirstIn(a, r[..m], k, k + 1);
    }
    if CutBy(a, r, k, k + 1) {
      var m :| 1 <= m <= |r| && FirstIn(a, r[..m], k, k + 1);
      SameFirst(a, r[..m], k);
      assert p[..m] <= r;
    }
  }

  lemma CutMore(a: nat, r: Path, k: nat, end: nat)
    requires a > 0 && k < end
    ensures CutBy(a, r, k, end) <==> CutBy(a, r, k, k + 1) || CutBy(a, r, k + 1, end)
  {
    hide First;
    if CutBy(a, r, k, end) {
      var m :| 1 <= m <= |r| && FirstIn(a, r[..m], k, end);
      assert FirstIn(a, r[..m], k, k + 1) || FirstIn(a, r[..m], k + 1, end);
    }
    if CutBy(a, r, k, k + 1) {
      var m :| 1 <= m <= |r| && FirstIn(a, r[..m], k, k + 1);
      assert FirstIn(a, r[..m], k, end);
    }
    if CutBy(a, r, k + 1, end) {
      var m :| 1 <= m <= |r| && FirstIn(a, r[..m], k + 1, end);
      assert FirstIn(a, r[..m], k, end);
    }
  }

  /** Pointers on the way to earlier blocks are not below those with block k as their first. */
  lemma NotUnder(a: nat, k: nat, j: nat, m: nat)
    requires a > 0 && j < k < Limit(a) && 1 <= m <= |PathOf(a, j)|
    ensures !Under(PathOf(a, k), PathOf(a, j)[..m])
  {
    hide PathOf, Limit, First;
    var p, r := PathOf(a, k), PathOf(a, j)[..m];
    forall n | 1 <= n <= |p| && ZeroFrom(p, n) ensures !(p[..n] <= r) {
      ZeroFirst(a, k, n);
      if p[..n] <= r {
        assert PathOf(a, j)[..n] == p[..n];
        ZeroFirst(a, j, n);
      }
    }
  }

  lemma EmptiedThere(a: nat, s: State, t: State, k: nat, j: nat)
    requires a > 0 && j < k < Limit(a) && Emptied(a, s, t, k)
    ensures Ptr(a, t, j) == Ptr(a, s, j) && (NodesThere(a, s, j) ==> NodesThere(a, t, j))
  {
    hide PathOf, Limit, First, At, Under;
    var p := PathOf(a, j);
    forall m | 1 <= m <= |p| ensures At(t, p[..m]) == At(s, p[..m]) {
      NotUnder(a, k, j, m);
    }
    FirstSelf(a, j);
    assert p[..|p|] == p;
  }

  lemma EmptiedPruned(a: nat, s1: State, s: State, t: State, k: nat, end: nat)
    requires a > 0 && k < Limit(a) && k < end && Pruned(a, s1, s, k + 1, end) && Emptied(a, s, t, k)
    ensures Pruned(a, s1, t, k, end)
  {
    hide PathOf, Limit, First, At, Under, CutBy;
    forall r | IsPath(a, r) ensures At(t, r) == if CutBy(a, r, k, end) then 0 else At(s1, r) {
      UnderFirst(a, k, r);
      CutMore(a, r, k, end);
    }
  }

  lemma EmptiedHeld(a: nat, s1: State, s: State, t: State, k: nat, end: nat)
    requires a > 0 && k < Limit(a) && k < end && OwnedOk(a, s1) && Pruned(a, s1, s, k + 1, end) && Emptied(a, s, t, k)
    requires BeyondHeld(a, s1, s, end)
    ensures BeyondHeld(a, s1, t, end)
  {
    hide PathOf, Limit, First, At, Under, CutBy;
    var w := PathOf(a, k);
    forall p | IsPath(a, p) && First(a, p) >= end && At(s1, p) != 0 ensures At(s1, p) !in t.free {
      var b := At(s1, p);
      forall m | 1 <= m < |w| && At(s, w[..m]) != 0 ensures At(s, w[..m]) != b {
        ZeroFirst(a, k, m);
        assert At(s, w[..m]) == At(s1, w[..m]);
      }
      assert !OnWayTo(s, w, b);
    }
  }

  lemma ClearingStep(a: nat, s0: State, s1: State, s: State, start: nat, k: nat, end: nat, t: State)
    requires a > 0 && start <= k < Limit(a) && OwnedOk(a, s1) && Clearing(a, s0, s1, s, start, k + 1, end) &&
             Emptied(a, s, t, k)
    ensures Clearing(a, s0, s1, t, start, k, end)
  {
    hide Limit, At, Ptr, PathOf, NodesThere, IndexOf, Pruned, BeyondHeld, OwnedOk;
    EmptiedPruned(a, s1, s, t, k, end);
    EmptiedHeld(a, s1, s, t, k, end);
    forall j: nat | j < k ensures Ptr(a, t, j) == Ptr(a, s, j) && (NodesThere(a, s, j) ==> NodesThere(a, t, j)) {
      EmptiedThere(a, s, t, k, j);
    }
    hide Emptied;
    assert t.dead == s.dead - {PathOf(a, k)} by { EmptiedDead(a, s, t, k); }
    forall p | p in t.dead ensures IsLeaf(a, p) && start <= IndexOf(a, p) < k {
      if IndexOf(a, p) == k {
        PathOfIndex(a, p);
      }
    }
  }

  lemma EmptiedDead(a: nat, s: State, t: State, k: nat)
    requires a > 0 && k < Limit(a) && Emptied(a, s, t, k)
    ensures t.dead == s.dead - {PathOf(a, k)}
  {
  }

  /** The pointers to the lowest n indirect blocks on the way to p are cleared, with all below them, no others. */
  ghost predicate Lowest(s: State, t: State, p: Path, n: nat) {
    n < |p| && (forall r :: At(t, r) == if n > 0 && p[..|p| - n] <= r then 0 else At(s, r)) && FreedOnly(s, t, p)
  }

  lemma LowestMore(s: State, t: State, p: Path, n: nat, u: State)
    requires Lowest(s, t, p, n) && n + 2 <= |p| && At(t, p[..|p| - 1 - n]) != 0
    requires forall r :: At(u, r) == if p[..|p| - 1 - n] <= r then 0 else At(t, r)
    requires u.free == t.free + {At(t, p[..|p| - 1 - n])}
    ensures Lowest(s, u, p, n + 1)
  {
    hide At;
    var q := p[..|p| - 1 - n];
    forall r ensures At(u, r) == if q <= r then 0 else At(s, r) {
      assert n > 0 && p[..|p| - n] <= r ==> q <= r by {
        if n > 0 && p[..|p| - n] <= r {
          assert q == p[..|p| - n][..|q|];
        }
      }
    }
    assert At(t, q) == At(s, q);
    assert OnWayTo(s, p, At(t, q));
  }

  lemma LowestNone(s: State, p: Path)
    requires 0 < |p|
    ensures Lowest(s, s, p, 0)
  {
  }

  /** Before level n is removed: what is below it is gone, if there was nothing behind block k. */
  lemma LowestGone(a: nat, s: State, t: State, k: nat, n: nat)
    requires a > 0 && k < Limit(a) && EndsAt(a, s, k + 1) && Lowest(s, t, PathOf(a, k), n)
    requires var p := PathOf(a, k); n + 2 <= |p| && At(s, p) == 0 && ZeroFrom(p, |p| - 1 - n)
    ensures NoChildren(a, t, PathOf(a, k)[..|PathOf(a, k)| - 1 - n])
  {
    hide PathOf, Limit, First, At;
    var p := PathOf(a, k);
    var m := |p| - 1 - n;
    assert EndsAt(a, t, k + 1);
    if n > 0 {
      assert p[..m + 1] <= p[..m + 1];
    } else {
      assert p[..m + 1] == p;
    }
    ChildrenGone(a, t, k, m);
  }

  /** The pointers that wait are of blocks before k. */
  ghost predicate DeadBefore(a: nat, dead: map<Path, nat>, k: nat) {
    a > 0 && forall r :: r in dead ==> IsLeaf(a, r) && IndexOf(a, r) < k
  }

  lemma ZeroUnder(a: nat, s: State, k: nat, m: nat)
    requires a > 0 && k < Limit(a) && 1 <= m <= |PathOf(a, k)| && ZeroFrom(PathOf(a, k), m) && DeadBefore(a, s.dead, k)
    ensures NoneDeadUnder(s, PathOf(a, k)[..m])
  {
    hide PathOf, Limit, IndexOf;
    var p := PathOf(a, k);
    IndexOfPath(a, k);
    forall r | r in s.dead ensures !(p[..m] <= r) {
      if p[..m] <= r {
        assert r[0] == p[..m][0] == p[0];
        assert forall i :: 1 <= i < m ==> r[i] == p[..m][i];
        IndexMono(a, p, r);
      }
    }
  }

  method RemoveNext(o: Ext2Object, c: Cell, n: nat, ghost k: nat, ghost s: State)
    requires o.a > 0 && Ok(o.a, o.St()) && k < Limit(o.a) && NoneBelowLevel(o.St(), n) && DeadBefore(o.a, o.dead, k)
    requires var p := PathOf(o.a, k);
             n + 2 <= |p| <= 4 && FoundFrom(o.St(), p, n) && Lowest(s, o.St(), p, n) && At(s, p) == 0 &&
             ZeroFrom(p, |p| - 1 - n) &&
             c == if |p| == n + 2 then InInode(p[0]) else InBlock(n + 1, p[|p| - 2 - n])
    modifies o`free, o`blocks, o`ind, o`block, o`ptr
    ensures Ok(o.a, o.St()) && NoneBelowLevel(o.St(), n + 1) && Strayed(old(o.St()), o.St(), false)
    ensures EndsAt(o.a, s, k + 1) ==> o.Excess() == old(o.Excess()) && Total(o.free, o.ptr) == old(Total(o.free, o.ptr))
    ensures FoundFrom(o.St(), PathOf(o.a, k), n + 1) && Lowest(s, o.St(), PathOf(o.a, k), n + 1)
  {
    ghost var t, p := o.St(), PathOf(o.a, k);
    assert At(t, p[..|p| - 1 - n]) != 0 by {
      assert FoundOk(t, p, n, true);
    }
    hide Ok, IsPath, Used, Weight, Total, At, Limit, PathOf, EndsAt, FoundFrom, NoChildren, Lowest, NoneBelowLevel,
         Strayed, DeadBefore, NoneDeadUnder;
    PathIsLeaf(o.a, k);
    if EndsAt(o.a, s, k + 1) {
      LowestGone(o.a, s, t, k, n);
    }
    ZeroUnder(o.a, t, k, |p| - 1 - n);
    RemoveLevel(o, c, n, p);
    LowestMore(s, t, p, n, o.St());
  }

  /** The switch of ext2_iblock_destroy: every indirect block with block k as its first is released, lowest first. */
  method RemoveEmptied(o: Ext2Object, depth: nat, offs: array<nat>, found: seq<bool>, ghost k: nat)
    requires o.a > 0 && Ok(o.a, o.St()) && k < Limit(o.a) && OffsFor(offs, depth, PathOf(o.a, k))
    requires var p := PathOf(o.a, k); |p| <= 4 && FoundFrom(o.St(), p, 0) && At(o.St(), p) == 0
    requires |found| == 3 && (forall j :: 0 <= j < depth - 1 ==> found[j]) && DeadBefore(o.a, o.dead, k)
    modifies o`free, o`blocks, o`ind, o`block, o`ptr
    ensures Ok(o.a, o.St()) && Strayed(old(o.St()), o.St(), false) && FreedOnly(old(o.St()), o.St(), PathOf(o.a, k))
    ensures old(EndsAt(o.a, o.St(), k + 1)) ==>
            o.Excess() == old(o.Excess()) && Total(o.free, o.ptr) == old(Total(o.free, o.ptr))
    ensures forall r :: At(o.St(), r) == if Under(PathOf(o.a, k), r) then 0 else old(At(o.St(), r))
  {
    hide Ok, IsPath, Used, Weight, Total, At, Limit, PathOf, EndsAt, FoundFrom, NoChildren, Strayed, NoneBelowLevel,
         FreedOnly, Under, Lowest, Wrote, Height, DeadBefore;
    ghost var s, p, n := o.St(), PathOf(o.a, k), 0;
    PathIsLeaf(o.a, k);
    LeafTop(o.a, p);
    LowestNone(s, p);
    SameWrote(o.a, s);
    LeafLast(o.a, s, p);
    NothingBelow(s);
    if depth >= 2 && offs[0] == 0 && (depth >= 3 ==> found[1]) {
      RemoveNext(o, if depth == 2 then InInode(offs[1]) else InBlock(1, offs[1]), 0, k, s);
      n := 1;
    }
    ghost var t := o.St();
    if depth >= 3 && offs[0] == 0 && offs[1] == 0 && (depth == 4 ==> found[2]) {
      RemoveNext(o, if depth == 3 then InInode(offs[2]) else InBlock(2, offs[2]), 1, k, s);
      StrayedTrans(s, t, o.St(), false, false);
      n := 2;
    }
    t := o.St();
    if depth == 4 && offs[0] == 0 && offs[1] == 0 && offs[2] == 0 {
      RemoveNext(o, InInode(offs[3]), 2, k, s);
      StrayedTrans(s, t, o.St(), false, false);
      n := 3;
    }
    LowestAll(s, o.St(), p, n);
  }

  lemma NothingBelow(s: State)
    ensures NoneBelowLevel(s, 0)
  {
  }

  lemma LowestAll(s: State, t: State, p: Path, n: nat)
    requires Lowest(s, t, p, n) && ZeroFrom(p, |p| - n) && (n + 1 == |p| || p[|p| - 1 - n] != 0)
    requires forall r :: p <= r ==> At(s, r) == 0
    ensures FreedOnly(s, t, p) && forall r :: At(t, r) == if Under(p, r) then 0 else At(s, r)
  {
    hide At, Under, FreedOnly;
    forall r ensures At(t, r) == if Under(p, r) then 0 else At(s, r) {
      TailUnder(p, n, r);
      assert n == 0 ==> p[..|p| - n] == p;
    }
  }

  /** Nothing is below the pointer of a data block. */
  lemma LeafLast(a: nat, s: State, p: Path)
    requires Ok(a, s) && IsLeaf(a, p) && At(s, p) == 0
    ensures forall r :: p <= r ==> At(s, r) == 0
  {
    forall r | p <= r ensures At(s, r) == 0 {
      if IsPath(a, r) {
        assert r[0] == p[0] && r == p;
      }
    }
  }

  lemma TailUnder(p: Path, n: nat, r: Path)
    requires n < |p| && ZeroFrom(p, |p| - n) && (n + 1 == |p| || p[|p| - 1 - n] != 0)
    ensures Under(p, r) <==> p[..|p| - n] <= r
  {
    if Under(p, r) {
      var m :| 1 <= m <= |p| && ZeroFrom(p, m) && p[..m] <= r;
      assert m >= |p| - n;
      assert p[..|p| - n] == p[..m][..|p| - n];
    }
  }

  lemma ClearingHas(a: nat, s0: State, s1: State, s: State, start: nat, k: nat, end: nat)
    requires a > 0 && start <= k < Limit(a) && Clearing(a, s0, s1, s, start, k + 1, end)
    ensures NodesThere(a, s, k) && At(s, PathOf(a, k)) == 0
  {
    hide Limit, PathOf, NodesThere, DeadIn, Pruned, BeyondHeld;
    assert Ptr(a, s, k) == 0;
  }

  lemma ClearedBefore(a: nat, s0: State, s1: State, s: State, start: nat, k: nat, end: nat, dead: map<Path, nat>)
    requires a > 0 && start <= k < Limit(a) && Clearing(a, s0, s1, s, start, k + 1, end)
    requires dead == s.dead - {PathOf(a, k)}
    ensures DeadBefore(a, dead, k)
  {
    hide Limit, PathOf, NodesThere, Pruned, BeyondHeld, IndexOf;
    forall r | r in dead ensures IsLeaf(a, r) && IndexOf(a, r) < k {
      if IndexOf(a, r) == k {
        PathOfIndex(a, r);
      }
    }
  }

  lemma WayFound(a: nat, s: State, t: State, k: nat, found: seq<bool>)
    requires a > 0 && Ok(a, t) && k < Limit(a) && NodesThere(a, s, k) && t.ptr == s.ptr && |found| == 3 &&
             |PathOf(a, k)| <= 4
    requires forall j :: 0 <= j < 3 ==> FoundOk(t, PathOf(a, k), j, found[j])
    ensures forall r :: At(t, r) == At(s, r)
    ensures FoundFrom(t, PathOf(a, k), 0) && ParentReady(t, PathOf(a, k)) &&
            forall j :: 0 <= j < |PathOf(a, k)| - 1 ==> found[j]
  {
    hide Limit, PathOf;
    var p := PathOf(a, k);
    PathIsLeaf(a, k);
    LeafTop(a, p);
    assert forall r :: At(t, r) == At(s, r);
    forall j: nat | j + 2 <= |p| ensures found[j] && FoundOk(t, p, j, true) {
      assert FoundOk(t, p, j, found[j]);
      assert At(s, p[..|p| - 1 - j]) != 0;
    }
    AllFound(a, t, p, found);
  }

  /** Clearing a pointer that counts no more changes none that does. */
  lemma StoreClears(a: nat, s: State, k: nat)
    requires a > 0 && k < Limit(a) && At(s, PathOf(a, k)) == 0 && CellIndexed(a, s, PathOf(a, k)) &&
             FoundFrom(s, PathOf(a, k), 0)
    ensures var t := Stored(a, s, PathOf(a, k), 0);
            FoundFrom(t, PathOf(a, k), 0) && (forall r :: At(t, r) == At(s, r)) &&
            Used(t.ptr) == Used(s.ptr) && Total(t.free, t.ptr) == Total(s.free, s.ptr)
  {
    hide Limit, PathOf, First;
    var p := PathOf(a, k);
    var t := Stored(a, s, p, 0);
    UsedMore(s.ptr, p, 0);
    SameTotal(s.free, s.ptr, p);
    assert forall r :: At(t, r) == At(s, r);
    forall j: nat | j + 2 <= |p| ensures FoundOk(t, p, j, true) {
      assert FoundOk(s, p, j, true);
    }
  }

  /** One step of the walk back: the pointer of block k is cleared, and what is empty with it released. */
  method ClearOne(o: Ext2Object, k: nat, ghost s0: State, ghost s1: State, ghost start: nat, ghost end: nat)
    requires o.a > 0 && Ok(o.a, o.St()) && OwnedOk(o.a, s1)
    requires start <= k < Limit(o.a) && Clearing(o.a, s0, s1, o.St(), start, k + 1, end)
    modifies o
    ensures Ok(o.a, o.St()) && Clearing(o.a, s0, s1, o.St(), start, k, end) && Strayed(old(o.St()), o.St(), false)
    ensures old(EndsAt(o.a, o.St(), k + 1)) ==>
            o.Excess() == old(o.Excess()) && Total(o.free, o.ptr) == old(Total(o.free, o.ptr))
  {
    hide Ok, IsPath, Used, Weight, Total, At, Limit, PathOf, EndsAt, FoundFrom, Looked, Ptr, Clearing, FoundOk,
         Strayed, OwnedOk, DeadBefore;
    ghost var s, p := o.St(), PathOf(o.a, k);
    PathIsLeaf(o.a, k);
    LeafTop(o.a, p);
    ClearingHas(o.a, s0, s1, s, start, k, end);
    var offs := new nat[4];
    var depth := BlockOffs(o.a, k, offs);
    var err, found := o.Ind(depth, offs, false, p);
    ghost var t := o.St();
    WayFound(o.a, s, t, k, found);
    var c := if depth == 1 then InInode(offs[0]) else InBlock(0, offs[0]);
    LookedKeys(o.a, s, t);
    CellShows(o.a, t, c, p);
    StoreClears(o.a, t, k);
    StoredWrote(o.a, t, p, 0, o.free);
    o.SetPointer(c, 0, k);
    ghost var u := o.St();
    StrayedTrans(s, t, u, false, false);
    EndsEither(o.a, s, u, k + 1);
    ClearedBefore(o.a, s0, s1, s, start, k, end, o.dead);
    RemoveEmptied(o, depth, offs, found, k);
    StrayedTrans(s, u, o.St(), false, false);
    EmptiedIs(o.a, s, u, o.St(), k);
    ClearingStep(o.a, s0, s1, s, start, k, end, o.St());
  }

  lemma EndsEither(a: nat, s: State, t: State, end: nat)
    requires a > 0 && forall r :: At(t, r) == At(s, r)
    ensures EndsAt(a, t, end) == EndsAt(a, s, end)
  {
  }

  lemma EmptiedIs(a: nat, s: State, u: State, t: State, k: nat)
    requires a > 0 && k < Limit(a) && u.dead == s.dead - {PathOf(a, k)} && t.dead == u.dead && u.free == s.free
    requires FreedOnly(u, t, PathOf(a, k))
    requires forall r :: At(u, r) == At(s, r)
    requires forall r :: At(t, r) == if Under(PathOf(a, k), r) then 0 else At(u, r)
    ensures Emptied(a, s, t, k)
  {
    hide Limit, PathOf, At, Under;
    forall b | b in t.free ensures b in s.free || OnWayTo(s, PathOf(a, k), b) {
      if b !in s.free {
        var m :| 1 <= m < |PathOf(a, k)| && At(u, PathOf(a, k)[..m]) == b && b != 0;
        assert At(s, PathOf(a, k)[..m]) == b;
      }
    }
  }

  lemma OkOwned(a: nat, s: State)
    requires Ok(a, s)
    ensures OwnedOk(a, s)
  {
  }

  /** ext2_iblock_destroy: the pointers of the range are cleared from its end back to its start. */
  method IblockDestroy(o: Ext2Object, start: nat, n: nat, ghost s0: State)
    requires o.a > 0 && Ok(o.a, o.St()) && start + n <= Limit(o.a)
    requires Clearing(o.a, s0, o.St(), o.St(), start, start + n, start + n)
    modifies o
    ensures Ok(o.a, o.St()) && Clearing(o.a, s0, old(o.St()), o.St(), start, start, start + n)
    ensures Strayed(old(o.St()), o.St(), false)
    ensures old(EndsAt(o.a, o.St(), start + n)) ==>
            o.Excess() == old(o.Excess()) && Total(o.free, o.ptr) == old(Total(o.free, o.ptr))
  {
    hide Ok, Used, Weight, Total, Limit, Clearing, Strayed, OwnedOk, EndsAt, Wrote;
    ghost var s1 := o.St();
    SameWrote(o.a, s1);
    OkOwned(o.a, s1);
    var i: nat := n;
    while i > 0
      invariant i <= n && Ok(o.a, o.St()) && Clearing(o.a, s0, s1, o.St(), start, start + i, start + n) &&
                Strayed(s1, o.St(), false)
      invariant EndsAt(o.a, s1, start + n) ==>
                o.Excess() == old(o.Excess()) && Total(o.free, o.ptr) == old(Total(o.free, o.ptr))
    {
      i := i - 1;
      ghost var s := o.St();
      if EndsAt(o.a, s1, start + n) {
        ClearingEnds(o.a, s0, s1, s, start, start + i + 1, start + n);
      }
      ClearOne(o, start + i, s0, s1, start, start + n);
      StrayedTrans(s1, s, o.St(), false, false);
    }
  }

  /** If there was nothing beyond the end, there is nothing from where the walk has come to. */
  lemma ClearingEnds(a: nat, s0: State, s1: State, s: State, start: nat, cur: nat, end: nat)
    requires a > 0 && Clearing(a, s0, s1, s, start, cur, end) && EndsAt(a, s1, end)
    ensures EndsAt(a, s, cur)
  {
    hide First, NoneIn, DeadIn, AllThere, BeyondHeld, CutBy;
    forall p | IsPath(a, p) && First(a, p) >= cur ensures At(s, p) == 0 {
      if First(a, p) < end {
        assert FirstIn(a, p[..|p|], cur, end) by {
          assert p[..|p|] == p;
        }
        CutWhole(a, p, cur, end);
      }
    }
  }

  lemma CutWhole(a: nat, p: Path, lo: nat, hi: nat)
    requires a > 0 && 0 < |p| && FirstIn(a, p[..|p|], lo, hi)
    ensures CutBy(a, p, lo, hi)
  {
    hide FirstIn;
  }

  /** A pointer from `end` on is below one that goes: of an indirect block with its first block in the range. */
  ghost predicate Hangs(a: nat, j: nat, start: nat, end: nat)
    requires a > 0 && j < Limit(a)
  {
    CutBy(a, PathOf(a, j), start, end)
  }

  /** A block that is free, or is an indirect block of the file now. */
  ghost predicate GivenAway(a: nat, s: State, b: nat) {
    b in s.free || IsIndirect(a, s, b)
  }

  /**
   * A cut that failed: from start up to `upto` the blocks were released all the same, and free or already indirect
   * blocks of this file; but in the places of all pointers is what was there.
   */
  ghost predicate CutShort(a: nat, s0: State, s: State, start: nat, upto: nat) {
    (forall j: nat :: a > 0 && j < Limit(a) ==> Entry(s, PathOf(a, j)) == Ptr(a, s0, j)) &&
    (forall j: nat :: start <= j < upto && Ptr(a, s0, j) != 0 ==> GivenAway(a, s, Ptr(a, s0, j))) &&
    forall j: nat :: Ptr(a, s, j) == if start <= j < upto then 0 else Ptr(a, s0, j)
  }

  lemma ReleasedShort(a: nat, s0: State, s: State, start: nat, upto: nat)
    requires a > 0 && Ok(a, s0) && Ok(a, s) && s0.dead == map[] && Released(a, s0, s, start, upto)
    requires Total(s.free, s.ptr) == Total(s0.free, s0.ptr)
    ensures CutShort(a, s0, s, start, upto)
  {
    hide Ok, Limit, PathOf, Total, NoneIn, DeadIn, Stale, Ptr;
    forall j: nat ensures Ptr(a, s, j) == if start <= j < upto then 0 else Ptr(a, s0, j) {
      ReleasedPtr(a, s0, s, start, upto, j);
    }
    forall j: nat | j < Limit(a) ensures Entry(s, PathOf(a, j)) == Ptr(a, s0, j) {
      ReleasedEntry(a, s0, s, start, upto, j);
    }
    forall j: nat | start <= j < upto && Ptr(a, s0, j) != 0 ensures GivenAway(a, s, Ptr(a, s0, j)) {
      ReleasedGone(a, s0, s, start, upto, j);
    }
  }

  lemma ReleasedPtr(a: nat, s0: State, s: State, start: nat, upto: nat, j: nat)
    requires a > 0 && Released(a, s0, s, start, upto)
    ensures Ptr(a, s, j) == if start <= j < upto then 0 else Ptr(a, s0, j)
  {
    hide Ptr, DeadIn, Stale;
  }

  lemma ReleasedEntry(a: nat, s0: State, s: State, start: nat, upto: nat, j: nat)
    requires a > 0 && j < Limit(a) && Released(a, s0, s, start, upto)
    ensures Entry(s, PathOf(a, j)) == Ptr(a, s0, j)
  {
    hide Limit, PathOf, IndexOf;
    IndexOfPath(a, j);
    ReleasedPtr(a, s0, s, start, upto, j);
  }

  lemma ReleasedGone(a: nat, s0: State, s: State, start: nat, upto: nat, j: nat)
    requires a > 0 && Ok(a, s0) && Ok(a, s) && Released(a, s0, s, start, upto)
    requires Total(s.free, s.ptr) == Total(s0.free, s0.ptr)
    requires start <= j < upto && Ptr(a, s0, j) != 0
    ensures GivenAway(a, s, Ptr(a, s0, j))
  {
    hide Ok, Limit, PathOf, IndexOf, Released, Ptr;
    var b := Ptr(a, s0, j);
    TotalNames(a, s0, j);
    if b !in s.free {
      var p :| p in s.ptr && s.ptr[p] != 0 && s.ptr[p] == b;
      NamedPath(a, s, p);
      if IsLeaf(a, p) {
        LeafPtr(a, s, p);
        var k := IndexOf(a, p);
        ReleasedPtr(a, s0, s, start, upto, k);
        PtrInjective(a, s0, j, k);
      } else {
        assert IsNode(a, p) && At(s, p) == b;
      }
    }
  }

  lemma TotalNames(a: nat, s: State, j: nat)
    requires a > 0 && Ptr(a, s, j) != 0
    ensures Ptr(a, s, j) in Total(s.free, s.ptr)
  {
    hide Limit, PathOf;
    assert PathOf(a, j) in s.ptr;
  }

  lemma NamedPath(a: nat, s: State, p: Path)
    requires Ok(a, s) && At(s, p) != 0
    ensures IsPath(a, p)
  {
  }

  lemma LeafPtr(a: nat, s: State, p: Path)
    requires a > 0 && IsLeaf(a, p)
    ensures Ptr(a, s, IndexOf(a, p)) == At(s, p)
  {
    hide Limit, PathOf, IndexOf;
    PathOfIndex(a, p);
  }

  /**
   * The blocks a file loses when it is cut to `start` blocks.  What it keeps is untouched, and of the lost part no
   * pointer, slot or indirect block remains.  If the file had nothing beyond its end, all of it is free again and
   * i_blocks counts what is left; exactly then cutting it to nothing gives every block back.  The cut itself needs free
   * blocks, for the indirect blocks its lookups create: CanCut says when there are enough.  If not, it stops at `at`
   * after it released part of the blocks, leaves their pointers and does not lower i_blocks.
   */
  method Truncate(o: Ext2Object, start: nat, end: nat) returns (err: int, ghost at: nat)
    requires o.a > 0 && Ok(o.a, o.St()) && o.dead == map[] && start <= end <= Limit(o.a)
    modifies o
    ensures err <= 0 && Ok(o.a, o.St())
    ensures err == EOK <==> old(CanCut(o.a, o.St(), start, end))
    ensures err < 0 ==> err == -ENOSPC && start <= at < end && old(CanCut(o.a, o.St(), start, at)) &&
                        !old(Suffices(o.a, o.St(), start, at)) && AllThere(o.a, o.St(), start, at - start)
    ensures err < 0 ==> var upto := at - old(Run(o.a, o.St(), start, at));
              CutShort(o.a, old(o.St()), o.St(), start, upto) &&
              o.Excess() == old(o.Excess()) + Weight(o.sectors, |old(Holding(o.a, o.St(), start, upto))|) &&
              Total(o.free, o.ptr) == old(Total(o.free, o.ptr))
    ensures err == EOK ==> o.dead == map[] && Strayed(old(o.St()), o.St(), false)
    ensures err == EOK ==> forall j: nat :: j < Limit(o.a) ==>
              Ptr(o.a, o.St(), j) == if start <= j < end || (j >= end && Hangs(o.a, j, start, end)) then 0
              else old(Ptr(o.a, o.St(), j))
    ensures err == EOK ==> forall p :: IsPath(o.a, p) && First(o.a, p) >= end && old(At(o.St(), p)) != 0 ==>
            old(At(o.St(), p)) !in o.free
    ensures err == EOK && old(EndsAt(o.a, o.St(), end)) ==>
              EndsAt(o.a, o.St(), start) && o.Excess() == old(o.Excess()) &&
              Total(o.free, o.ptr) == old(Total(o.free, o.ptr))
    ensures err == EOK && start == 0 ==> (o.free == old(Total(o.free, o.ptr)) <==> old(EndsAt(o.a, o.St(), end)))
    ensures err == EOK && start == 0 && old(EndsAt(o.a, o.St(), end)) ==> AllGone(o.St()) && o.blocks == old(o.Excess())
  {
    hide Ok, Ptr, Used, Weight, Total, Limit, EndsAt, NodesThere, Released, Clearing, AllGone, Strayed, SameBeyond,
         First, At, Hangs, IsPath, CanCut, Suffices, Run, Holding, CutShort;
    ghost var s0 := o.St();
    var freed;
    err, freed, at := ReleaseData(o, start, end);
    if err < 0 {
      ReleasedShort(o.a, s0, o.St(), start, at - Run(o.a, s0, start, at));
      return;
    }
    ghost var s1 := o.St();
    ReleasedClearing(o.a, s0, s1, start, end);
    EndsSameBeyond(o.a, s0, s1, end);
    IblockDestroy(o, start, end - start, s0);
    o.blocks := o.blocks - freed * o.sectors;
    WeightSum(o.sectors, 0, freed);
    NoWeight(o.sectors);
    StrayedTrans(s0, s1, o.St(), false, false);
    ClearingDone(o.a, s0, s1, o.St(), start, end);
    ClearedPtr(o.a, s0, s1, o.St(), start, end);
    BeyondKept(o.a, s0, s1, o.St(), start, end);
    if EndsAt(o.a, s0, end) {
      ClearingEnds(o.a, s0, s1, o.St(), start, start, end);
      if start == 0 {
        Nothing(o.a, o.St());
      }
    } else if start == 0 {
      BeyondNamed(o.a, s0, o.St(), end);
    }
  }

  /** With the indirect blocks there, a cut always succeeds. */
  lemma ReachedCuts(a: nat, s: State, start: nat, end: nat)
    requires forall k :: start <= k < end ==> Reached(a, s, k)
    ensures CanCut(a, s, start, end)
  {
    hide Lacking, Reached, Run, Holding;
    forall k: nat | start <= k < end ensures Suffices(a, s, start, k) {
      NothingLacks(a, s, start, k + 1);
    }
  }

  /** So it does where the file has no holes. */
  lemma MappedCuts(a: nat, s: State, start: nat, end: nat)
    requires Ok(a, s) && forall k :: start <= k < end ==> Ptr(a, s, k) != 0
    ensures CanCut(a, s, start, end)
  {
    hide Ok, Ptr, Reached, CanCut;
    forall k | start <= k < end ensures Reached(a, s, k) {
      MappedReached(a, s, k);
    }
    ReachedCuts(a, s, start, end);
  }

  /** And with enough free blocks for all the indirect blocks it may create. */
  lemma SpaceCuts(a: nat, s: State, start: nat, end: nat)
    requires |Lacking(a, s, start, end)| <= |s.free|
    ensures CanCut(a, s, start, end)
  {
    hide Lacking, Run, Holding;
    forall k: nat | start <= k < end ensures Suffices(a, s, start, k) {
      LackingMore(a, s, start, k + 1, end);
    }
  }

  /** A full device, and a file in one run with a hole behind it that needs an indirect block: no cut succeeds. */
  lemma RunBlocks(a: nat, s: State, start: nat, k: nat, first: nat, end: nat)
    requires s.free == {} && start <= k < end && first > 0 && InRow(a, s, start, k - start, first)
    requires Lacking(a, s, start, k + 1) != {}
    ensures Run(a, s, start, k) == k - start && !Suffices(a, s, start, k) && !CanCut(a, s, start, end)
  {
    hide Lacking, Ptr;
    WholeRun(a, s, start, k, first);
    HoldingNone(a, s, start);
  }

  lemma {:induction false} WholeRun(a: nat, s: State, start: nat, k: nat, first: nat)
    requires start <= k && first > 0 && InRow(a, s, start, k - start, first)
    ensures Run(a, s, start, k) == k - start
    decreases k
  {
    hide Ptr;
    if start < k {
      WholeRun(a, s, start, k - 1, first);
      assert Ptr(a, s, k - 1) == first + (k - 1 - start);
      if start < k - 1 {
        assert Ptr(a, s, k - 2) == first + (k - 2 - start);
      }
    }
  }

  lemma EndsSameBeyond(a: nat, s0: State, s: State, end: nat)
    requires a > 0 && SameBeyond(a, s0, s, end)
    ensures EndsAt(a, s, end) == EndsAt(a, s0, end)
  {
    hide First;
  }

  lemma ReleasedClearing(a: nat, s0: State, s: State, start: nat, end: nat)
    requires a > 0 && start <= end && Ok(a, s) && Released(a, s0, s, start, end) && AllThere(a, s, start, end - start)
    ensures Clearing(a, s0, s, s, start, end, end)
  {
    hide Ptr, NodesThere, Limit, First;
    assert Pruned(a, s, s, end, end) by {
      NoCut(a, end);
    }
  }

  lemma NoCut(a: nat, k: nat)
    requires a > 0
    ensures forall p :: !CutBy(a, p, k, k)
  {
    hide First;
    forall p ensures !CutBy(a, p, k, k) {
    }
  }

  lemma ClearingDone(a: nat, s0: State, s1: State, s: State, start: nat, end: nat)
    requires a > 0 && Clearing(a, s0, s1, s, start, start, end)
    ensures s.dead == map[]
  {
    hide Ptr, NodesThere, Limit, Pruned, BeyondHeld;
  }

  lemma ClearedPtr(a: nat, s0: State, s1: State, s: State, start: nat, end: nat)
    requires a > 0 && start <= end && Clearing(a, s0, s1, s, start, start, end) && Released(a, s0, s1, start, end)
    ensures forall j: nat :: j < Limit(a) ==>
              Ptr(a, s, j) == if start <= j < end || (j >= end && Hangs(a, j, start, end)) then 0 else Ptr(a, s0, j)
  {
    hide Limit, First, PathOf, DeadIn, BeyondHeld, AllThere, CutBy;
    forall j: nat | j < Limit(a)
      ensures Ptr(a, s, j) == if start <= j < end || (j >= end && Hangs(a, j, start, end)) then 0 else Ptr(a, s0, j)
    {
      FirstSelf(a, j);
      var p := PathOf(a, j);
      if start <= j < end {
        assert p[..|p|] == p;
        CutWhole(a, p, start, end);
      }
    }
  }

  lemma BeyondKept(a: nat, s0: State, s1: State, s: State, start: nat, end: nat)
    requires a > 0 && Clearing(a, s0, s1, s, start, start, end) && SameBeyond(a, s0, s1, end)
    ensures forall p :: IsPath(a, p) && First(a, p) >= end && At(s0, p) != 0 ==> At(s0, p) !in s.free
  {
    hide First, Pruned, NoneIn, DeadIn, AllThere;
  }

  /** A block named for data beyond the end only is not free in the end, and so not all are. */
  lemma BeyondNamed(a: nat, s0: State, s: State, end: nat)
    requires a > 0 && !EndsAt(a, s0, end)
    requires forall p :: IsPath(a, p) && First(a, p) >= end && At(s0, p) != 0 ==> At(s0, p) !in s.free
    ensures s.free != Total(s0.free, s0.ptr)
  {
    hide First;
    var p :| IsPath(a, p) && First(a, p) >= end && At(s0, p) != 0;
    assert p in s0.ptr && At(s0, p) in Total(s0.free, s0.ptr);
  }

  /** An empty file: no pointer in the inode, no block in the slots. */
  ghost predicate AllGone(s: State) {
    (forall i :: 0 <= i < |s.root| ==> s.root[i] == 0) && forall d :: 0 <= d < |s.slots| ==> !s.slots[d].Holds?
  }

  lemma Nothing(a: nat, s: State)
    requires a > 0 && Ok(a, s) && s.dead == map[] && EndsAt(a, s, 0)
    ensures AllGone(s) && Used(s.ptr) == 0 && Total(s.free, s.ptr) == s.free
  {
    hide First;
    forall p ensures At(s, p) == 0 {
      assert IsPath(a, p) ==> First(a, p) >= 0;
    }
    forall p | p in s.ptr ensures s.ptr[p] == 0 {
      assert At(s, p) == 0;
    }
    assert (set p | p in s.ptr && s.ptr[p] != 0) == {};
    forall i: nat | i < |s.root| ensures s.root[i] == 0 {
      assert s.root[i] == At(s, Top(i));
    }
    forall d: nat | d < |s.slots| ensures !s.slots[d].Holds? {
      assert SlotOk(a, s, d);
    }
  }

  /** A file of one block by its size, which has none there but one behind it, as a write that failed leaves it. */
  ghost function Unfinished(a: nat, empty: seq<nat>): State {
    State(map[0 := empty, 7 := empty], seq(ROOT_SLOTS, i => if i == 1 then 7 else 0), [Empty, Empty, Empty],
          [[], [], []], map[[1] := 7], {}, map[], 0)
  }

  lemma UnfinishedOk(a: nat, empty: seq<nat>)
    requires a > 0 && |empty| == a
    ensures Ok(a, Unfinished(a, empty)) && !EndsAt(a, Unfinished(a, empty), 1)
  {
    var s := Unfinished(a, empty);
    assert forall p :: At(s, p) == if p == [1] then 7 else 0;
    forall i: nat | i < ROOT_SLOTS ensures s.root[i] == At(s, Top(i)) {
      assert Top(i) == [1] <==> i == 1;
    }
    assert IsPath(a, [1]) && Full([1]) == [1] && First(a, [1]) == 1;
  }

  /** Cut to nothing, it still has that block: nothing gives it back. */
  method BlocksBeyondStay(a: nat, empty: seq<nat>) returns (err: int, kept: nat)
    requires a > 0 && |empty| == a
    ensures err == EOK && kept == 7
  {
    UnfinishedOk(a, empty);
    hide Ok, EndsAt, Total, Used, Weight, AllGone, Strayed;
    var o := new Ext2Object(a, 2, map[0 := empty, 7 := empty], {}, seq(ROOT_SLOTS, i => if i == 1 then 7 else 0), 2,
                            map[[1] := 7]);
    ghost var s := o.St();
    assert s == Unfinished(a, empty);
    assert PathOf(a, 1) == [1] && Ptr(a, s, 1) == 7;
    assert !Hangs(a, 1, 0, 1) by {
      forall m | 1 <= m <= |PathOf(a, 1)| ensures !FirstIn(a, PathOf(a, 1)[..m], 0, 1) {
        assert PathOf(a, 1)[..m] == [1] && Full([1]) == [1];
      }
    }
    hide First, Hangs, CutBy;
    ghost var at;
    err, at := Truncate(o, 0, 1);
    assert |o.block| == ROOT_SLOTS by { RootShows(a, o.St()); }
    if err == EOK {
      RootShows(a, o.St());
    }
    kept := o.block[1];
  }

  lemma RootShows(a: nat, s: State)
    requires a > 0 && Ok(a, s)
    ensures |s.root| == ROOT_SLOTS && (s.dead == map[] ==> s.root[1] == Ptr(a, s, 1))
  {
    assert PathOf(a, 1) == Top(1);
  }

  /** The pointers of n direct blocks in a run on disk from block 1 on, and that disk. */
  function RunPointers(n: nat): (r: map<Path, nat>)
    ensures forall p :: p in r <==> |p| == 1 && p[0] < n
    ensures forall p :: p in r ==> r[p] == p[0] + 1
  {
    assert forall p: Path :: |p| == 1 ==> p == Top(p[0]);
    if n == 0 then map[] else RunPointers(n - 1)[Top(n - 1) := n]
  }

  function RunDisk(n: nat, empty: seq<nat>): (r: map<nat, seq<nat>>)
    ensures forall b: nat :: b in r <==> b <= n
    ensures forall b: nat :: b in r ==> r[b] == empty
  {
    if n == 0 then map[0 := empty] else RunDisk(n - 1, empty)[n := empty]
  }

  function RunRoot(): (r: seq<nat>)
    ensures |r| == ROOT_SLOTS && forall i :: 0 <= i < ROOT_SLOTS ==> r[i] == if i < DIRECT_BLOCKS then i + 1 else 0
  {
    [1, 2, 3, 4, 5, 6, 7, 8, 9, 10, 11, 12, 0, 0, 0]
  }

  /** A file whose direct blocks are a run on disk that fills the device. */
  ghost function FullRun(empty: seq<nat>): State {
    State(RunDisk(DIRECT_BLOCKS, empty), RunRoot(), [Empty, Empty, Empty], [[], [], []], RunPointers(DIRECT_BLOCKS), {},
          map[], 0)
  }

  lemma FullRunAt(empty: seq<nat>, p: Path)
    ensures At(FullRun(empty), p) == Entry(FullRun(empty), p) == if |p| == 1 && p[0] < DIRECT_BLOCKS then p[0] + 1
            else 0
  {
    hide RunPointers;
  }

  /** A file of direct blocks only, nothing of it in the slots. */
  ghost predicate OnlyDirect(s: State) {
    |s.root| == ROOT_SLOTS && s.slots == [Empty, Empty, Empty] && |s.own| == 3 && s.dead == map[] &&
    (forall i :: DIRECT_BLOCKS <= i < ROOT_SLOTS ==> s.root[i] == 0) &&
    forall p :: At(s, p) == if |p| == 1 && p[0] < DIRECT_BLOCKS then s.root[p[0]] else 0
  }

  ghost predicate EachNamedOnce(s: State)
    requires |s.root| == ROOT_SLOTS
  {
    (forall i :: 0 <= i < ROOT_SLOTS && s.root[i] != 0 ==> s.root[i] in s.disk && s.root[i] !in s.free) &&
    forall i, j :: 0 <= i < ROOT_SLOTS && 0 <= j < ROOT_SLOTS && s.root[i] != 0 && s.root[i] == s.root[j] ==> i == j
  }

  lemma OnlyDirectOk(a: nat, s: State)
    requires a > 0 && OnlyDirect(s) && DiskOk(a, s) && EachNamedOnce(s)
    ensures Ok(a, s)
  {
    hide OwnedOk, CellsOk, RootOk, SlotsOk, DeadOk, DiskOk, EachNamedOnce, OnlyDirect;
    OnlyDirectOwned(a, s);
    OnlyDirectCells(a, s);
    OnlyDirectRoot(a, s);
  }

  lemma OnlyDirectRoot(a: nat, s: State)
    requires OnlyDirect(s)
    ensures RootOk(a, s) && SlotsOk(a, s) && DeadOk(a, s)
  {
    hide At, IsNode, Level;
  }

  lemma OnlyDirectCells(a: nat, s: State)
    requires OnlyDirect(s)
    ensures CellsOk(a, s)
  {
    hide OnlyDirect, CellOk;
    forall p: Path, i: nat | IsNode(a, p) && i < a ensures CellOk(s, p, i) {
      OnlyDirectCell(a, s, p, i);
    }
  }

  lemma OnlyDirectOwned(a: nat, s: State)
    requires a > 0 && OnlyDirect(s) && EachNamedOnce(s)
    ensures OwnedOk(a, s)
  {
    hide At;
    forall p | At(s, p) != 0 ensures IsPath(a, p) && At(s, p) in s.disk && At(s, p) !in s.free {
    }
    forall p, q | IsPath(a, p) && IsPath(a, q) && At(s, p) != 0 && At(s, p) == At(s, q) ensures p == q {
      assert p == [p[0]] && q == [q[0]];
    }
  }

  lemma OnlyDirectCell(a: nat, s: State, p: Path, i: nat)
    requires OnlyDirect(s) && IsNode(a, p)
    ensures CellOk(s, p, i)
  {
    hide At;
    assert |Child(p, i)| == |p| + 1;
  }

  lemma FullRunOk(a: nat, empty: seq<nat>)
    requires a > 0 && |empty| == a
    ensures Ok(a, FullRun(empty)) && OnlyDirect(FullRun(empty))
  {
    hide RunPointers, RunDisk, RunRoot, Ok;
    forall p ensures At(FullRun(empty), p) == if |p| == 1 && p[0] < DIRECT_BLOCKS then p[0] + 1 else 0 {
      FullRunAt(empty, p);
    }
    OnlyDirectOk(a, FullRun(empty));
  }

  /** Up to the last direct block no lookup costs anything, and the first behind costs one. */
  lemma OnlyDirectCosts(a: nat, s: State, start: nat)
    requires a > 0 && OnlyDirect(s) && start <= DIRECT_BLOCKS
    ensures (forall k: nat :: k < DIRECT_BLOCKS ==> Reached(a, s, k) && Ptr(a, s, k) == s.root[k])
    ensures Lacking(a, s, start, DIRECT_BLOCKS) == {}
    ensures |Lacking(a, s, start, DIRECT_BLOCKS + 1)| == 1
  {
    forall k: nat | k < DIRECT_BLOCKS ensures Reached(a, s, k) && Ptr(a, s, k) == s.root[k] {
      assert PathOf(a, k) == [k];
    }
    NothingLacks(a, s, start, DIRECT_BLOCKS);
    LackingNone(a, s, start);
    assert PathOf(a, DIRECT_BLOCKS) == [SINGLE_INDIRECT_BLOCK, 0];
    assert Missing(s, PathOf(a, DIRECT_BLOCKS), 1) == 1 by {
      assert PathOf(a, DIRECT_BLOCKS)[..1] == [SINGLE_INDIRECT_BLOCK];
    }
    hide Lacking, Missing, PathOf, Limit, OnlyDirect, Reached, Ptr, WayInto;
    LackingNext(a, s, s, start, DIRECT_BLOCKS);
  }

  lemma FullRunStops(a: nat, empty: seq<nat>)
    requires a > 0 && |empty| == a
    ensures !Suffices(a, FullRun(empty), 0, DIRECT_BLOCKS)
  {
    hide Lacking, PathOf, Ptr, Suffices, CanCut, Run, At, Limit, Reached, RunPointers, RunDisk, RunRoot, OnlyDirect, Ok;
    FullRunOk(a, empty);
    OnlyDirectCosts(a, FullRun(empty), 0);
    RunBlocks(a, FullRun(empty), 0, DIRECT_BLOCKS, 1, DIRECT_BLOCKS + 1);
  }

  lemma FullRunFacts(a: nat, empty: seq<nat>)
    requires a > 0 && |empty| == a
    ensures var s := FullRun(empty);
            && Ok(a, s) && DIRECT_BLOCKS < Limit(a) && !CanCut(a, s, 0, DIRECT_BLOCKS + 1)
            && forall i: nat :: i < DIRECT_BLOCKS ==> Ptr(a, s, i) == i + 1
  {
    hide Suffices, CanCut, Ptr, Ok, OnlyDirect;
    FullRunOk(a, empty);
    FullRunStops(a, empty);
    CutTooFar(a, FullRun(empty), 0, DIRECT_BLOCKS, DIRECT_BLOCKS + 1);
    OnlyDirectCosts(a, FullRun(empty), 0);
  }

  /**
   * With a size of one block more, it cannot be cut to nothing, nor removed: the last lookup finds
   * no block to take.
   */
  method FullRunStays(a: nat, empty: seq<nat>) returns (err: int, kept: seq<nat>)
    requires a > 0 && |empty| == a
    ensures err == -ENOSPC && |kept| == ROOT_SLOTS && forall i :: 0 <= i < DIRECT_BLOCKS ==> kept[i] == i + 1
  {
    hide Ok, EndsAt, Total, Used, Weight, AllGone, Strayed, Suffices, CanCut, RunPointers, RunDisk, RunRoot, Run, At,
         PathOf, Hangs, First, Ptr, CutShort, Limit, AllThere, Holding, IsPath;
    FullRunFacts(a, empty);
    var o := new Ext2Object(a, 2, RunDisk(DIRECT_BLOCKS, empty), {}, RunRoot(), 24, RunPointers(DIRECT_BLOCKS));
    ghost var s := o.St();
    assert s == FullRun(empty);
    ghost var at;
    err, at := Truncate(o, 0, DIRECT_BLOCKS + 1);
    RootStale(a, s, o.St(), 0, at - Run(a, s, 0, at));
    kept := o.block;
  }

  lemma CutTooFar(a: nat, s: State, start: nat, k: nat, end: nat)
    requires start <= k < end && !Suffices(a, s, start, k)
    ensures !CanCut(a, s, start, end)
  {
  }

  /** After a cut that failed, the inode holds the pointers it held. */
  lemma RootStale(a: nat, s0: State, s: State, start: nat, upto: nat)
    requires a > 0 && Ok(a, s) && CutShort(a, s0, s, start, upto)
    ensures |s.root| == ROOT_SLOTS && forall i: nat :: i < DIRECT_BLOCKS ==> s.root[i] == Ptr(a, s0, i)
  {
    hide Ptr, GivenAway, Entry;
    forall i: nat | i < DIRECT_BLOCKS ensures s.root[i] == Ptr(a, s0, i) {
      assert PathOf(a, i) == Top(i);
    }
  }

  /** A file of one block, on a device with none to give. */
  ghost function Lone(empty: seq<nat>): State {
    State(map[0 := empty, 7 := empty], [0, 0, 0, 0, 0, 0, 0, 0, 0, 0, 7, 0, 0, 0, 0], [Empty, Empty, Empty],
          [[], [], []], map[[10] := 7], {}, map[], 0)
  }

  lemma LoneOk(a: nat, empty: seq<nat>)
    requires a > 0 && |empty| == a
    ensures Ok(a, Lone(empty)) && OnlyDirect(Lone(empty)) && Total({}, Lone(empty).ptr) == {7}
  {
    var s := Lone(empty);
    assert forall i :: 0 <= i < ROOT_SLOTS ==> s.root[i] == if i == 10 then 7 else 0;
    forall p ensures At(s, p) == if |p| == 1 && p[0] < DIRECT_BLOCKS then s.root[p[0]] else 0 {
      assert p == [10] <==> |p| == 1 && p[0] == 10;
    }
    hide At, Ok;
    OnlyDirectOk(a, s);
    assert [10] in s.ptr && s.ptr[[10]] == 7;
  }

  lemma LonePtr(a: nat, empty: seq<nat>, k: nat)
    requires a > 0 && |empty| == a
    ensures Ptr(a, Lone(empty), k) == if k == 10 then 7 else 0
  {
    LoneOk(a, empty);
    hide Ok, Limit;
    if k < Limit(a) {
      assert |PathOf(a, k)| == 1 ==> PathOf(a, k) == [k];
    }
  }

  lemma LoneHolding(a: nat, empty: seq<nat>, k: nat)
    requires a > 0 && |empty| == a && k >= DIRECT_BLOCKS
    ensures Holding(a, Lone(empty), 10, k) == {10} && Run(a, Lone(empty), 10, k) == 0
  {
    hide Ptr, Lone;
    forall j: nat ensures Ptr(a, Lone(empty), j) == if j == 10 then 7 else 0 {
      LonePtr(a, empty, j);
    }
  }

  lemma LoneNeedsMore(a: nat, empty: seq<nat>)
    requires a > 0
    ensures DIRECT_BLOCKS + a < Limit(a) && |Lacking(a, Lone(empty), 10, DIRECT_BLOCKS + a + 1)| > 1
  {
    var s, k := Lone(empty), DIRECT_BLOCKS + a;
    var top, below := [DOUBLE_INDIRECT_BLOCK], [DOUBLE_INDIRECT_BLOCK, 0];
    SecondLevel(a);
    assert WayTo(a, k, top) && WayTo(a, k, below) by {
      assert PathOf(a, k)[..1] == top && PathOf(a, k)[..2] == below;
    }
    hide Lacking, PathOf, Limit;
    LackingIs(a, s, 10, k + 1, top);
    LackingIs(a, s, 10, k + 1, below);
    CardSubset({top, below}, Lacking(a, s, 10, k + 1));
  }

  /** The first block behind two indirect ones. */
  lemma SecondLevel(a: nat)
    requires a > 0
    ensures DIRECT_BLOCKS + a < Limit(a) && PathOf(a, DIRECT_BLOCKS + a) == [DOUBLE_INDIRECT_BLOCK, 0, 0]
  {
    Times(1, a, a);
    assert Mul(a, a) > 0;
  }

  lemma LoneStops(a: nat, empty: seq<nat>)
    requires a > 0 && |empty| == a
    ensures CanCut(a, Lone(empty), 10, DIRECT_BLOCKS + 1) && DIRECT_BLOCKS + a < Limit(a)
    ensures !CanCut(a, Lone(empty), 10, DIRECT_BLOCKS + a + 1)
  {
    hide Ok, Lacking, Ptr, Limit, Reached, OnlyDirect, Holding, Run;
    var s := Lone(empty);
    LoneOk(a, empty);
    OnlyDirectCosts(a, s, 10);
    ReachedCuts(a, s, 10, DIRECT_BLOCKS);
    LoneHolding(a, empty, DIRECT_BLOCKS);
    LoneHolding(a, empty, DIRECT_BLOCKS + a);
    LoneNeedsMore(a, empty);
    assert Suffices(a, s, 10, DIRECT_BLOCKS);
    assert !Suffices(a, s, 10, DIRECT_BLOCKS + a);
  }

  /**
   * With a size beyond what one indirect block serves, it is cut at its only block: this is released, taken for the
   * indirect block of a later lookup, and the cut then fails.  The inode names block 7 as data and as pointers.
   */
  method LoneReused(a: nat, empty: seq<nat>) returns (err: int, data: nat, pointers: nat)
    requires a > 0 && |empty| == a
    ensures err == -ENOSPC && data == 7 && pointers == 7
  {
    hide Ok, EndsAt, Total, Used, Weight, AllGone, Strayed, Suffices, CanCut, Run, At, PathOf, Hangs, First, Ptr,
         CutShort, Limit, AllThere, Holding, IsPath, OnlyDirect;
    LoneOk(a, empty);
    LoneStops(a, empty);
    LonePtr(a, empty, 10);
    var o := new Ext2Object(a, 2, map[0 := empty, 7 := empty], {}, [0, 0, 0, 0, 0, 0, 0, 0, 0, 0, 7, 0, 0, 0, 0], 2,
                            map[[10] := 7]);
    ghost var s := o.St();
    assert s == Lone(empty);
    ghost var at;
    err, at := Truncate(o, 10, DIRECT_BLOCKS + a + 1);
    CutReaches(a, s, 10, at, DIRECT_BLOCKS + 1);
    RootStale(a, s, o.St(), 10, at - Run(a, s, 10, at));
    OneBlockLeft(a, o.St(), 10, at, 7);
    data, pointers := o.block[10], o.block[SINGLE_INDIRECT_BLOCK];
  }

  lemma CutReaches(a: nat, s: State, start: nat, at: nat, k: nat)
    requires CanCut(a, s, start, k) && start <= at && !Suffices(a, s, start, at)
    ensures at >= k
  {
  }

  lemma OneBlockLeft(a: nat, s: State, start: nat, at: nat, b: nat)
    requires a > 0 && Ok(a, s) && start <= DIRECT_BLOCKS < at && AllThere(a, s, start, at - start)
    requires Total(s.free, s.ptr) == {b}
    ensures |s.root| == ROOT_SLOTS && s.root[SINGLE_INDIRECT_BLOCK] == b
  {
    var q := Top(SINGLE_INDIRECT_BLOCK);
    assert NodesThere(a, s, DIRECT_BLOCKS);
    assert PathOf(a, DIRECT_BLOCKS)[..1] == q;
    assert At(s, q) != 0 && q in s.ptr;
    assert At(s, q) in Total(s.free, s.ptr);
    assert q !in s.dead;
  }

  // ---------------------------------------------------------------------------------------
  // Any history of lookups, updates and cuts

  datatype Event = Step(op: Op) | CutOff(start: nat, end: nat)

  /** The blocks a cut takes from a file. */
  ghost predicate Loses(a: nat, k: nat, start: nat, end: nat)
    requires a > 0 && k < Limit(a)
  {
    start <= k < end || (k >= end && Hangs(a, k, start, end))
  }

  /** What is in the place of the pointer of block k after a history: a cut that failed changes none. */
  ghost function Recorded(a: nat, evs: seq<Event>, res: seq<Result>, k: nat, was: nat): nat
    requires |evs| == |res| && a > 0 && k < Limit(a)
  {
    if evs == [] then was
    else
      var n := |evs| - 1;
      Follows(a, evs[n], res[n], k, Recorded(a, evs[..n], res[..n], k, was))
  }

  ghost function Follows(a: nat, ev: Event, r: Result, k: nat, before: nat): nat
    requires a > 0 && k < Limit(a)
  {
    match ev
    case Step(op) => if op == Assign(k) && r.err == EOK then r.bno else before
    case CutOff(start, end) => if r.err == EOK && Loses(a, k, start, end) then 0 else before
  }

  ghost predicate Traces(a: nat, s0: State, s: State, evs: seq<Event>, res: seq<Result>)
    requires a > 0
  {
    |evs| == |res| &&
    forall k: nat :: k < Limit(a) ==> Entry(s, PathOf(a, k)) == Recorded(a, evs, res, k, Ptr(a, s0, k))
  }

  lemma TracesNone(a: nat, s: State)
    requires a > 0 && s.dead == map[]
    ensures Traces(a, s, s, [], [])
  {
    hide PathOf, Limit;
  }

  lemma TracesOne(a: nat, s0: State, s: State, t: State, evs: seq<Event>, res: seq<Result>, ev: Event, r: Result)
    requires a > 0 && Traces(a, s0, s, evs, res)
    requires forall k: nat :: k < Limit(a) ==>
               Entry(t, PathOf(a, k)) == Follows(a, ev, r, k, Entry(s, PathOf(a, k)))
    ensures Traces(a, s0, t, evs + [ev], res + [r])
  {
    hide PathOf, Limit, Entry, Follows, Ptr;
    assert (evs + [ev])[..|evs|] == evs && (res + [r])[..|evs|] == res;
  }

  /** One event of the history. */
  method Happen(o: Ext2Object, ev: Event) returns (r: Result)
    requires o.a > 0 && Ok(o.a, o.St()) && o.dead == map[]
    requires ev.CutOff? ==> ev.start <= ev.end <= Limit(o.a)
    modifies o
    ensures Ok(o.a, o.St()) && (o.dead == map[] || (ev.CutOff? && r.err < 0))
    ensures ev.CutOff? ==> (r.err == EOK <==> old(CanCut(o.a, o.St(), ev.start, ev.end)))
    ensures ev.Step? ==> Applied(o.a, old(o.St()), ev.op, r, o.St())
    ensures forall k: nat :: k < Limit(o.a) ==>
              Entry(o.St(), PathOf(o.a, k)) == Follows(o.a, ev, r, k, old(Entry(o.St(), PathOf(o.a, k))))
  {
    hide Ok, PathOf, Limit, Wrote, Strayed, CanCut, Strands, Missing, Hangs, EndsAt, Total, Used, Weight, AllGone,
         First, IsPath, Suffices, Run, Holding, AllThere;
    ghost var s := o.St();
    match ev
    case Step(op) =>
      r := Apply(o, op);
    case CutOff(start, end) =>
      var err;
      ghost var at;
      err, at := Truncate(o, start, end);
      r := Result(err, 0);
      CutFollows(o.a, s, o.St(), start, end, r);
  }

  lemma CutFollows(a: nat, s: State, t: State, start: nat, end: nat, r: Result)
    requires a > 0 && s.dead == map[] && r.err <= 0
    requires r.err == EOK ==> t.dead == map[] && forall j: nat :: j < Limit(a) ==>
               Ptr(a, t, j) == if start <= j < end || (j >= end && Hangs(a, j, start, end)) then 0 else Ptr(a, s, j)
    requires r.err < 0 ==> exists upto: nat :: CutShort(a, s, t, start, upto)
    ensures forall k: nat :: k < Limit(a) ==>
              Entry(t, PathOf(a, k)) == Follows(a, CutOff(start, end), r, k, Entry(s, PathOf(a, k)))
  {
    hide PathOf, Limit, Hangs, GivenAway;
    forall k: nat | k < Limit(a)
      ensures Entry(t, PathOf(a, k)) == Follows(a, CutOff(start, end), r, k, Entry(s, PathOf(a, k)))
    {
      assert Entry(s, PathOf(a, k)) == Ptr(a, s, k);
      if r.err == EOK {
        assert Entry(t, PathOf(a, k)) == Ptr(a, t, k);
      }
    }
  }

  /**
   * After any history of lookups, updates and cuts, up to the first cut that fails, and the slots written back, a walk
   * that knows no cache finds every pointer as the history has it, and every lookup found it so.
   */
  method HistoryWithCuts(o: Ext2Object, evs: seq<Event>) returns (res: seq<Result>)
    requires o.a > 0 && Ok(o.a, o.St()) && o.dead == map[]
    requires forall i :: 0 <= i < |evs| && evs[i].CutOff? ==> evs[i].start <= evs[i].end <= Limit(o.a)
    modifies o
    ensures |res| <= |evs| && (|res| < |evs| ==> 0 < |res| && evs[|res| - 1].CutOff? && res[|res| - 1].err < 0)
    ensures forall i :: 0 <= i < |res| && evs[i].Step? && evs[i].op.Lookup? && res[i].err == EOK ==>
              evs[i].op.index < Limit(o.a) &&
              res[i].bno == Recorded(o.a, evs[..i], res[..i], evs[i].op.index, old(Ptr(o.a, o.St(), evs[i].op.index)))
    ensures forall k: nat :: k < Limit(o.a) ==>
              Uncached(o.a, o.disk, o.block, k) == Recorded(o.a, evs[..|res|], res, k, old(Ptr(o.a, o.St(), k)))
  {
    hide Ok, PathOf, Limit, At, Entry, Applied, Looked, Recorded, Follows, CanCut, Ptr, AnyLoose, Walk, DiskHolds;
    ghost var s0 := o.St();
    res := [];
    TracesNone(o.a, s0);
    var stopped := false;
    while |res| < |evs| && !stopped
      invariant |res| <= |evs| && Ok(o.a, o.St()) && (stopped || o.dead == map[]) &&
                Traces(o.a, s0, o.St(), evs[..|res|], res)
      invariant stopped ==> 0 < |res| && evs[|res| - 1].CutOff? && res[|res| - 1].err < 0
      invariant forall i :: 0 <= i < |res| && evs[i].Step? && evs[i].op.Lookup? && res[i].err == EOK ==>
                  evs[i].op.index < Limit(o.a) &&
                  res[i].bno == Recorded(o.a, evs[..i], res[..i], evs[i].op.index, Ptr(o.a, s0, evs[i].op.index))
      decreases |evs| - |res|
    {
      var n := |res|;
      ghost var s, before := o.St(), res;
      var r := Happen(o, evs[n]);
      if evs[n].Step? {
        LookupTold(o.a, s0, s, o.St(), evs[..n], res, evs[n].op, r);
      }
      TracesOne(o.a, s0, s, o.St(), evs[..n], res, evs[n], r);
      assert evs[..n + 1] == evs[..n] + [evs[n]];
      stopped := evs[n].CutOff? && r.err < 0;
      res := res + [r];
      assert forall i :: 0 <= i <= n ==> res[..i] == before[..i];
    }
    ghost var s := o.St();
    OkSlots(o.a, s);
    o.SyncSlots();
    forall k: nat | k < Limit(o.a)
      ensures Uncached(o.a, o.disk, o.block, k) == Recorded(o.a, evs[..|res|], res, k, Ptr(o.a, s0, k))
    {
      SyncedEntry(o.a, s, o.St(), k);
    }
  }

  lemma LookupTold(a: nat, s0: State, s: State, t: State, evs: seq<Event>, res: seq<Result>, op: Op, r: Result)
    requires a > 0 && s.dead == map[] && Traces(a, s0, s, evs, res) && Applied(a, s, op, r, t)
    ensures op.Lookup? && r.err == EOK ==>
              op.index < Limit(a) && r.bno == Recorded(a, evs, res, op.index, Ptr(a, s0, op.index))
  {
    hide Limit, PathOf, Ptr, Recorded, Applied;
    AppliedWrote(a, s, op, r, t);
  }

  lemma OkSlots(a: nat, s: State)
    requires Ok(a, s)
    ensures |s.slots| == 3
  {
  }

  lemma SyncedEntry(a: nat, s: State, t: State, k: nat)
    requires a > 0 && k < Limit(a) && Ok(a, s) && |s.slots| == 3 && t == Ext2Tree.WrittenBack(s) &&
             DiskHolds(a, t)
    ensures Uncached(a, t.disk, t.root, k) == Entry(s, PathOf(a, k))
  {
    hide Limit, PathOf, Walk, Ok;
    PathIsLeaf(a, k);
    WriteBackKeeps(a, s);
  }
}
