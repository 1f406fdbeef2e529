/**
 * What lookups cost: ext2_block_get creates the indirect blocks missing on its way, so that reading, writing
 * and cutting a file all need free blocks, and fail for want of them.  The cost of looking up a range of blocks is
 * the number of indirect blocks missing on the ways to any of them, each counted once.
 */
module Ext2Space {
  import opened Ext2Index
  import opened Ext2Tree

  /** The block that block k of the file is kept in, 0 if there is none. */
  ghost function Ptr(a: nat, s: State, k: nat): nat {
    if a > 0 && k < Limit(a) then At(s, PathOf(a, k)) else 0
  }

  /** Every one of these file blocks has the indirect blocks its pointer needs. */
  ghost predicate AllThere(a: nat, s: State, k: nat, n: nat) {
    a > 0 && k + n <= Limit(a) && forall j :: k <= j < k + n ==> NodesThere(a, s, j)
  }

  ghost predicate WayTo(a: nat, k: nat, q: Path) {
    a > 0 && k < Limit(a) && OnWay(q, PathOf(a, k))
  }

  /** An indirect block on the way to one of the blocks from lo up to hi. */
  ghost predicate WayInto(a: nat, lo: nat, hi: nat, q: Path) {
    exists k :: lo <= k < hi && WayTo(a, k, q)
  }

  /** The indirect blocks missing on the ways to the blocks from lo up to hi. */
  ghost function Lacking(a: nat, s: State, lo: nat, hi: nat): set<Path> {
    set k: nat, m: nat | lo <= k < hi && 1 <= m <= 3 && Lacks(a, s, k, m) :: Prefix(a, k, m)
  }

  ghost function Prefix(a: nat, k: nat, m: nat): Path {
    if a > 0 && k < Limit(a) && m < |PathOf(a, k)| then PathOf(a, k)[..m] else []
  }

  ghost predicate Lacks(a: nat, s: State, k: nat, m: nat) {
    a > 0 && k < Limit(a) && 1 <= m < |PathOf(a, k)| && At(s, PathOf(a, k)[..m]) == 0
  }

  lemma LackingIs(a: nat, s: State, lo: nat, hi: nat, q: Path)
    ensures q in Lacking(a, s, lo, hi) <==> WayInto(a, lo, hi, q) && At(s, q) == 0
  {
    hide PathOf, Limit;
    if q in Lacking(a, s, lo, hi) {
      var k: nat, m: nat :| lo <= k < hi && 1 <= m <= 3 && Lacks(a, s, k, m) && q == Prefix(a, k, m);
      assert WayTo(a, k, q);
    }
    if WayInto(a, lo, hi, q) && At(s, q) == 0 {
      var k :| lo <= k < hi && WayTo(a, k, q);
      PathIsLeaf(a, k);
      assert Lacks(a, s, k, |q|) && Prefix(a, k, |q|) == q;
    }
  }

  lemma {:induction false} CardSubset<T>(x: set<T>, y: set<T>)
    requires x <= y
    ensures |x| <= |y|
  {
    assert y == x + (y - x);
  }

  lemma LackingMore(a: nat, s: State, lo: nat, hi: nat, further: nat)
    requires hi <= further
    ensures |Lacking(a, s, lo, hi)| <= |Lacking(a, s, lo, further)|
  {
    hide Lacking, WayTo;
    forall q | q in Lacking(a, s, lo, hi) ensures q in Lacking(a, s, lo, further) {
      LackingIs(a, s, lo, hi, q);
      LackingIs(a, s, lo, further, q);
    }
    CardSubset(Lacking(a, s, lo, hi), Lacking(a, s, lo, further));
  }

  lemma LackingNone(a: nat, s: State, lo: nat)
    ensures Lacking(a, s, lo, lo) == {}
  {
  }

  /** What one lookup creates, counted level by level as the source goes. */
  lemma MissingCount(a: nat, s: State, k: nat)
    requires a > 0 && k < Limit(a)
    ensures Missing(s, PathOf(a, k), 1) == |Lacking(a, s, k, k + 1)|
  {
    hide PathOf, Limit, Missing, Lacking, LackFrom;
    var p := PathOf(a, k);
    LackFromCount(s, p, 1);
    forall q ensures q in Lacking(a, s, k, k + 1) <==> q in LackFrom(s, p, 1) {
      LackingIs(a, s, k, k + 1, q);
      LackFromIs(s, p, 1, q);
      if WayTo(a, k, q) {
        assert WayInto(a, k, k + 1, q);
      }
    }
    assert Lacking(a, s, k, k + 1) == LackFrom(s, p, 1);
  }

  ghost function LackFrom(s: State, p: Path, m: nat): set<Path> {
    set i: nat | m <= i < |p| && At(s, p[..i]) == 0 :: p[..i]
  }

  lemma LackFromIs(s: State, p: Path, m: nat, q: Path)
    requires m > 0
    ensures q in LackFrom(s, p, m) <==> OnWay(q, p) && m <= |q| && At(s, q) == 0
  {
    if OnWay(q, p) && m <= |q| && At(s, q) == 0 {
      assert q == p[..|q|];
    }
  }

  lemma {:induction false} LackFromCount(s: State, p: Path, m: nat)
    ensures Missing(s, p, m) == |LackFrom(s, p, m)|
    decreases |p| - m
  {
    if m >= |p| {
      assert LackFrom(s, p, m) == {};
    } else {
      LackFromCount(s, p, m + 1);
      var rest := LackFrom(s, p, m + 1);
      assert p[..m] !in rest;
      assert LackFrom(s, p, m) == if At(s, p[..m]) == 0 then rest + {p[..m]} else rest;
    }
  }

  // ---------------------------------------------------------------------------------------
  // After lookups of a range

  ghost predicate Reached(a: nat, s: State, k: nat) {
    a > 0 && k < Limit(a) && NodesThere(a, s, k)
  }

  /** The indirect blocks the file got since s0 are on the ways to the blocks from lo up to hi. */
  ghost predicate NodesFrom(a: nat, s0: State, s: State, lo: nat, hi: nat) {
    forall q :: IsNode(a, q) && At(s, q) != At(s0, q) ==> At(s0, q) == 0 && WayInto(a, lo, hi, q)
  }

  /**
   * The blocks from lo up to hi have been looked up since s0, and `spent` more free blocks were taken than given back
   * for anything but indirect blocks.
   */
  ghost predicate Opened(a: nat, s0: State, s: State, lo: nat, hi: nat, spent: int) {
    lo <= hi && (forall j :: lo <= j < hi ==> Reached(a, s, j)) && NodesFrom(a, s0, s, lo, hi) &&
    |s.free| + |Lacking(a, s0, lo, hi)| + spent == |s0.free|
  }

  lemma OpenedNothing(a: nat, s: State, lo: nat)
    ensures Opened(a, s, s, lo, lo, 0)
  {
    LackingNone(a, s, lo);
  }

  lemma ReachedAt(a: nat, s: State, k: nat, q: Path)
    requires Reached(a, s, k) && WayTo(a, k, q)
    ensures At(s, q) != 0
  {
    hide PathOf, Limit;
    assert q == PathOf(a, k)[..|q|];
  }

  /** A further block adds to the cost what its own lookup creates then. */
  lemma LackingNext(a: nat, s0: State, s: State, lo: nat, k: nat)
    requires lo <= k && (forall j :: lo <= j < k ==> Reached(a, s, j)) && NodesFrom(a, s0, s, lo, k)
    requires a > 0 && k < Limit(a)
    ensures |Lacking(a, s0, lo, k + 1)| == |Lacking(a, s0, lo, k)| + Missing(s, PathOf(a, k), 1)
  {
    hide PathOf, Limit, Missing, Lacking, Reached, WayTo, NodesFrom;
    var before, now := Lacking(a, s0, lo, k), Lacking(a, s, k, k + 1);
    forall q ensures q in Lacking(a, s0, lo, k + 1) <==> q in before || q in now {
      LackingNextAt(a, s0, s, lo, k, q);
    }
    forall q | q in before ensures q !in now {
      LackingNextAt(a, s0, s, lo, k, q);
    }
    assert Lacking(a, s0, lo, k + 1) == before + now && before !! now;
    MissingCount(a, s, k);
  }

  lemma LackingNextAt(a: nat, s0: State, s: State, lo: nat, k: nat, q: Path)
    requires lo <= k && (forall j :: lo <= j < k ==> Reached(a, s, j)) && NodesFrom(a, s0, s, lo, k)
    requires a > 0 && k < Limit(a)
    ensures q in Lacking(a, s0, lo, k + 1) <==> q in Lacking(a, s0, lo, k) || q in Lacking(a, s, k, k + 1)
    ensures q in Lacking(a, s0, lo, k) ==> q !in Lacking(a, s, k, k + 1)
  {
    hide PathOf, Limit, Lacking, Reached, WayTo;
    LackingIs(a, s0, lo, k + 1, q);
    LackingIs(a, s0, lo, k, q);
    LackingIs(a, s, k, k + 1, q);
    if WayInto(a, lo, k + 1, q) {
      WayIsNode(a, lo, k + 1, q);
    }
    if WayInto(a, lo, k, q) {
      var j :| lo <= j < k && WayTo(a, j, q);
      ReachedAt(a, s, j, q);
      assert WayInto(a, lo, k + 1, q);
    }
    if WayInto(a, k, k + 1, q) {
      assert WayTo(a, k, q);
    }
  }

  lemma WayIsNode(a: nat, lo: nat, hi: nat, q: Path)
    requires WayInto(a, lo, hi, q)
    ensures IsNode(a, q)
  {
    hide PathOf, Limit;
    var k :| lo <= k < hi && WayTo(a, k, q);
    PathIsLeaf(a, k);
  }

  /** The lookup of the next block succeeded. */
  lemma OpenedNext(a: nat, s0: State, s: State, t: State, lo: nat, k: nat, spent: int)
    requires Opened(a, s0, s, lo, k, spent) && Reached(a, t, k) && Looked(a, s, t)
    requires forall q :: At(t, q) != At(s, q) ==> OnWay(q, PathOf(a, k))
    requires |t.free| == |s.free| - Missing(s, PathOf(a, k), 1)
    ensures Opened(a, s0, t, lo, k + 1, spent)
  {
    hide Limit, PathOf, Missing, Lacking, Looked, OnWay, WayTo, WayInto;
    LackingNext(a, s0, s, lo, k);
    forall j | lo <= j < k + 1 ensures Reached(a, t, j) {
      if j < k {
        assert Reached(a, s, j);
        LookedReached(a, s, t, j);
      }
    }
    forall q | IsNode(a, q) && At(t, q) != At(s0, q) ensures At(s0, q) == 0 && WayInto(a, lo, k + 1, q) {
      OpenedNextAt(a, s0, s, t, lo, k, q);
    }
  }

  lemma OpenedNextAt(a: nat, s0: State, s: State, t: State, lo: nat, k: nat, q: Path)
    requires lo <= k && a > 0 && k < Limit(a) && NodesFrom(a, s0, s, lo, k) && Looked(a, s, t)
    requires At(t, q) != At(s, q) ==> OnWay(q, PathOf(a, k))
    requires IsNode(a, q) && At(t, q) != At(s0, q)
    ensures At(s0, q) == 0 && WayInto(a, lo, k + 1, q)
  {
    hide Limit, PathOf, OnWay;
    if At(t, q) != At(s, q) {
      assert WayTo(a, k, q);
      LookedAt(a, s, t, q);
    } else {
      var j :| lo <= j < k && WayTo(a, j, q);
    }
  }

  lemma LookedAt(a: nat, s: State, t: State, q: Path)
    requires Looked(a, s, t) && IsNode(a, q) && At(t, q) != At(s, q)
    ensures At(s, q) == 0
  {
  }

  lemma LookedReached(a: nat, s: State, t: State, k: nat)
    requires Looked(a, s, t) && Reached(a, s, k)
    ensures Reached(a, t, k)
  {
    hide PathOf, Limit;
    PathIsLeaf(a, k);
  }

  /** The lookup of the next block failed: the free blocks do not cover the range. */
  lemma OpenedShort(a: nat, s0: State, s: State, lo: nat, k: nat, spent: int, hi: nat)
    requires Opened(a, s0, s, lo, k, spent) && a > 0 && k < hi && k < Limit(a)
    requires |s.free| < Missing(s, PathOf(a, k), 1)
    ensures |s0.free| < |Lacking(a, s0, lo, k + 1)| + spent && |s0.free| < |Lacking(a, s0, lo, hi)| + spent
  {
    hide Limit, PathOf, Missing, Lacking, Reached, NodesFrom;
    LackingNext(a, s0, s, lo, k);
    LackingMore(a, s0, lo, k + 1, hi);
  }

  /** The indirect blocks are the same, and other blocks were taken or given back. */
  lemma OpenedSpend(a: nat, s0: State, s: State, t: State, lo: nat, hi: nat, spent: int, more: int)
    requires Opened(a, s0, s, lo, hi, spent) && |t.free| + more == |s.free|
    requires forall q :: IsNode(a, q) ==> At(t, q) == At(s, q)
    ensures Opened(a, s0, t, lo, hi, spent + more)
  {
    hide Lacking;
    forall j | lo <= j < hi ensures Reached(a, t, j) {
      assert Reached(a, s, j);
      SameReached(a, s, t, j);
    }
  }

  lemma SameReached(a: nat, s: State, t: State, k: nat)
    requires Reached(a, s, k) && forall q :: IsNode(a, q) ==> At(t, q) == At(s, q)
    ensures Reached(a, t, k)
  {
    hide PathOf, Limit;
    PathIsLeaf(a, k);
  }

  /** Where every block is mapped, or has its indirect blocks, lookups are free of cost. */
  lemma NothingLacks(a: nat, s: State, lo: nat, hi: nat)
    requires forall k :: lo <= k < hi ==> Reached(a, s, k)
    ensures Lacking(a, s, lo, hi) == {}
  {
    hide Lacking, Reached;
    forall q ensures q !in Lacking(a, s, lo, hi) {
      LackingIs(a, s, lo, hi, q);
      if WayInto(a, lo, hi, q) {
        var k :| lo <= k < hi && WayTo(a, k, q);
        ReachedAt(a, s, k, q);
      }
    }
  }

  lemma MappedReached(a: nat, s: State, k: nat)
    requires Ok(a, s) && Ptr(a, s, k) != 0
    ensures Reached(a, s, k)
  {
    hide PathOf, Limit, Ok;
    var p := PathOf(a, k);
    PathIsLeaf(a, k);
    forall m | 1 <= m < |p| ensures At(s, p[..m]) != 0 {
      AboveNamed(a, s, p, m);
    }
  }

  /** Above a block that is there, every indirect block is. */
  lemma {:induction false} AboveNamed(a: nat, s: State, p: Path, m: nat)
    requires Ok(a, s) && IsPath(a, p) && At(s, p) != 0 && 1 <= m < |p|
    ensures At(s, p[..m]) != 0
    decreases |p|
  {
    var q := p[..|p| - 1];
    assert CellOk(s, q, p[|p| - 1]);
    assert Child(q, p[|p| - 1]) == p;
    if m < |q| {
      AboveNamed(a, s, q, m);
      assert q[..m] == p[..m];
    }
  }

  lemma ReachedMissesNone(a: nat, s: State, k: nat)
    requires Reached(a, s, k)
    ensures Missing(s, PathOf(a, k), 1) == 0
  {
    hide PathOf, Limit, Missing, Lacking, NodesThere;
    MissingCount(a, s, k);
    NothingLacks(a, s, k, k + 1);
  }

  // ---------------------------------------------------------------------------------------
  // Lookups in order, some of them ahead

  /** The blocks from lo up to k, and perhaps some of those up to hi, have been looked up since s0. */
  ghost predicate Covered(a: nat, s0: State, s: State, lo: nat, k: nat, hi: nat, spent: int) {
    exists u :: k <= u <= hi && Opened(a, s0, s, lo, u, spent)
  }

  /** The range goes beyond what a file can have, or costs more than there are free blocks. */
  ghost predicate Short(a: nat, s: State, lo: nat, hi: nat, more: int) {
    hi > Limit(a) || |s.free| < |Lacking(a, s, lo, hi)| + more
  }

  lemma CoveredNothing(a: nat, s: State, lo: nat, hi: nat)
    requires lo <= hi
    ensures Covered(a, s, s, lo, lo, hi, 0)
  {
    OpenedNothing(a, s, lo);
  }

  /** How a lookup ended, as ext2_block_get has it. */
  ghost predicate Got(a: nat, s: State, t: State, k: nat, found: bool) {
    if found then
      Reached(a, t, k) && Looked(a, s, t) && (forall q :: At(t, q) != At(s, q) ==> OnWay(q, PathOf(a, k))) &&
      |t.free| == |s.free| - Missing(s, PathOf(a, k), 1) && (Reached(a, s, k) ==> t.ptr == s.ptr && t.free == s.free)
    else a > 0 && (k < Limit(a) ==> |s.free| < Missing(s, PathOf(a, k), 1))
  }

  lemma CoveredNext(a: nat, s0: State, s: State, t: State, lo: nat, k: nat, hi: nat, spent: int, found: bool)
    requires Covered(a, s0, s, lo, k, hi, spent) && k < hi && lo <= k && Got(a, s, t, k, found)
    ensures found ==> Covered(a, s0, t, lo, k + 1, hi, spent)
    ensures !found ==> Short(a, s0, lo, hi, spent)
  {
    hide PathOf, Limit, Missing, Lacking, Looked, Opened, Reached;
    var u :| k <= u <= hi && Opened(a, s0, s, lo, u, spent);
    if k < u {
      OpenedReached(a, s0, s, lo, u, spent, k);
      ReachedMissesNone(a, s, k);
      ReachedWithin(a, s, k);
      if found {
        OpenedSpend(a, s0, s, t, lo, u, spent, 0);
      }
    } else if found {
      OpenedNext(a, s0, s, t, lo, k, spent);
    } else if k < Limit(a) {
      OpenedShort(a, s0, s, lo, k, spent, hi);
    }
  }

  lemma ReachedWithin(a: nat, s: State, k: nat)
    requires Reached(a, s, k)
    ensures a > 0 && k < Limit(a)
  {
  }

  lemma OpenedReached(a: nat, s0: State, s: State, lo: nat, hi: nat, spent: int, k: nat)
    requires Opened(a, s0, s, lo, hi, spent) && lo <= k < hi
    ensures Reached(a, s, k)
  {
  }

  /** All of the range was looked up: there was enough for it, and this is what is left. */
  lemma CoveredAll(a: nat, s0: State, s: State, lo: nat, hi: nat, spent: int)
    requires lo < hi && Covered(a, s0, s, lo, hi, hi, spent)
    ensures !Short(a, s0, lo, hi, spent) && |s.free| == |s0.free| - |Lacking(a, s0, lo, hi)| - spent
  {
    hide Limit, Lacking, Reached;
    OpenedReached(a, s0, s, lo, hi, spent, hi - 1);
    ReachedWithin(a, s, hi - 1);
  }

  lemma CoveredLess(a: nat, s0: State, s: State, lo: nat, j: nat, k: nat, hi: nat, spent: int)
    requires Covered(a, s0, s, lo, k, hi, spent) && j <= k
    ensures Covered(a, s0, s, lo, j, hi, spent)
  {
    hide Opened;
  }

  /** A range mapped throughout costs nothing. */
  lemma MappedCostsNothing(a: nat, s: State, lo: nat, hi: nat)
    requires Ok(a, s) && forall k :: lo <= k < hi ==> Ptr(a, s, k) != 0
    ensures Lacking(a, s, lo, hi) == {} && (lo < hi ==> !Short(a, s, lo, hi, 0))
  {
    hide Ok, Lacking, Reached, Limit, Ptr;
    forall k | lo <= k < hi ensures Reached(a, s, k) {
      MappedReached(a, s, k);
    }
    NothingLacks(a, s, lo, hi);
    if lo < hi {
      ReachedWithin(a, s, hi - 1);
    }
  }

  // ---------------------------------------------------------------------------------------
  // Holes

  /** The blocks from lo up to hi that the file has not. */
  ghost function Holes(a: nat, s: State, lo: nat, hi: nat): set<nat> {
    set k: nat | lo <= k < hi && Ptr(a, s, k) == 0
  }

  /** A run of further holes. */
  lemma {:induction false} HolesMore(a: nat, s: State, lo: nat, i: nat, j: nat)
    requires lo <= i <= j && forall k: nat :: i <= k < j ==> Ptr(a, s, k) == 0
    ensures |Holes(a, s, lo, j)| == |Holes(a, s, lo, i)| + (j - i)
    decreases j
  {
    hide Ptr;
    if i < j {
      HolesMore(a, s, lo, i, j - 1);
      assert Holes(a, s, lo, j) == Holes(a, s, lo, j - 1) + {j - 1};
    }
  }

  lemma HolesSame(a: nat, s: State, lo: nat, i: nat, j: nat)
    requires lo <= i <= j && forall k: nat :: i <= k < j ==> Ptr(a, s, k) != 0
    ensures Holes(a, s, lo, j) == Holes(a, s, lo, i)
  {
    hide Ptr;
  }

  lemma HolesGrow(a: nat, s: State, lo: nat, i: nat, j: nat)
    requires i <= j
    ensures |Holes(a, s, lo, i)| <= |Holes(a, s, lo, j)|
  {
    CardSubset(Holes(a, s, lo, i), Holes(a, s, lo, j));
  }

  // ---------------------------------------------------------------------------------------
  // One range after another

  /** After a range was looked up, another costs only what the first did not create. */
  lemma LackingAfter(a: nat, s0: State, s: State, from: nat, to: nat, spent: int, lo: nat, hi: nat)
    requires Opened(a, s0, s, from, to, spent)
    ensures Lacking(a, s, lo, hi) == Lacking(a, s0, lo, hi) - Lacking(a, s0, from, to)
  {
    hide Lacking, Opened, WayInto, IsNode;
    forall q ensures q in Lacking(a, s, lo, hi) <==> q in Lacking(a, s0, lo, hi) && q !in Lacking(a, s0, from, to) {
      LackingIs(a, s, lo, hi, q);
      LackingIs(a, s0, lo, hi, q);
      LackingIs(a, s0, from, to, q);
      if WayInto(a, lo, hi, q) {
        WayIsNode(a, lo, hi, q);
        OpenedAt(a, s0, s, from, to, spent, q);
      }
    }
  }

  lemma OpenedAt(a: nat, s0: State, s: State, from: nat, to: nat, spent: int, q: Path)
    requires Opened(a, s0, s, from, to, spent) && IsNode(a, q)
    ensures At(s, q) == 0 <==> At(s0, q) == 0 && !WayInto(a, from, to, q)
  {
    hide Lacking, Reached, WayTo, IsNode;
    if WayInto(a, from, to, q) {
      var k :| from <= k < to && WayTo(a, k, q);
      ReachedAt(a, s, k, q);
    }
  }

  /** The second range is too much after the first. */
  ghost predicate ShortAfter(a: nat, s: State, from: nat, to: nat, more: int, lo: nat, hi: nat) {
    hi > Limit(a) || |s.free| < |Lacking(a, s, from, to) + Lacking(a, s, lo, hi)| + more
  }

  lemma ShortThen(a: nat, s0: State, s: State, from: nat, to: nat, spent: int, lo: nat, hi: nat)
    requires Opened(a, s0, s, from, to, spent)
    ensures Short(a, s, lo, hi, 0) <==> ShortAfter(a, s0, from, to, spent, lo, hi)
  {
    hide Lacking, Limit, Reached, NodesFrom;
    LackingAfter(a, s0, s, from, to, spent, lo, hi);
    var first, second := Lacking(a, s0, from, to), Lacking(a, s0, lo, hi);
    assert first + second == first + (second - first);
  }

  lemma LackingPart(a: nat, s: State, lo: nat, hi: nat, from: nat, to: nat)
    requires from <= lo && hi <= to
    ensures Lacking(a, s, lo, hi) <= Lacking(a, s, from, to)
  {
    hide Lacking, WayTo;
    forall q | q in Lacking(a, s, lo, hi) ensures q in Lacking(a, s, from, to) {
      LackingIs(a, s, lo, hi, q);
      LackingIs(a, s, from, to, q);
    }
  }
}
