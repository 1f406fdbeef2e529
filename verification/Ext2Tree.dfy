/**
 * The pointers of an ext2 file: indirect blocks and their cache (ext2/block.c).
 *
 * A file's pointers form a tree of indirect blocks.  For each of the three levels one indirect
 * block is kept in memory, changed there, and written back when another one takes its place.
 * The model carries the tree itself next to the disk and the three slots, and shows that whatever
 * lookups and pointer changes happen, slots and disk together always hold that tree, and the disk
 * alone does once the slots are written back.
 */
module Ext2Tree {
  import opened Ext2Index

  const ENOSPC: int := 28
  const EOK: int := 0

  /**
   * `bno` and `data` of a slot: no buffer, a buffer with an indirect block, or a buffer that was
   * allocated for a block that could then not be created.  The last has whatever the memory held,
   * and its `bno` is 0: written back, it goes to block 0 of the device.
   */
  datatype Slot = Empty | Loose(junk: seq<nat>) | Holds(bno: nat, data: seq<nat>)

  function Child(p: Path, i: nat): Path {
    p + [i]
  }

  function Top(i: nat): Path {
    [i]
  }

  /** How many levels of indirect blocks are below this one: the slot it is kept in. */
  function Level(p: Path): int
    requires 0 < |p|
  {
    Height(p[0]) - |p|
  }

  /**
   * The disk, the pointers in the inode and the slots, and what they are to mean: the block each
   * pointer of the tree names (`ptr`, a missing one is 0), the pointer each slot was read through
   * (`own`), the blocks that belong to nobody (`free`), pointers that no longer count because
   * their blocks were released, with what is still in their places (`dead`), and how many times block 0
   * was written (`strays`).
   */
  datatype State = State(
    disk: map<nat, seq<nat>>,
    root: seq<nat>,
    slots: seq<Slot>,
    own: seq<Path>,
    ptr: map<Path, nat>,
    free: set<nat>,
    dead: map<Path, nat>,
    strays: nat)

  ghost function At(s: State, p: Path): nat {
    if p in s.ptr then s.ptr[p] else 0
  }

  /** What is in the place of a pointer: the block it names, or the one it named before that was released. */
  ghost function Entry(s: State, p: Path): nat {
    if p in s.dead then s.dead[p] else At(s, p)
  }

  /** Where a pointer's indirect block exists, or it is in the inode. */
  ghost predicate HasPlace(s: State, p: Path) {
    |p| > 1 ==> At(s, p[..|p| - 1]) != 0
  }

  ghost predicate Held(s: State, d: int, b: nat) {
    0 <= d < |s.slots| && s.slots[d].Holds? && s.slots[d].bno == b
  }

  /** The pointers in an indirect block, wherever it is. */
  ghost function NodeData(s: State, p: Path): seq<nat>
    requires 0 < |p|
  {
    if Held(s, Level(p), At(s, p)) then s.slots[Level(p)].data
    else if At(s, p) in s.disk then s.disk[At(s, p)] else []
  }

  /** Every block on disk has `a` words; the free ones are among them.  Block 0 is there, and not free. */
  ghost predicate DiskOk(a: nat, s: State) {
    (forall b :: b in s.disk ==> |s.disk[b]| == a) && (forall b :: b in s.free ==> b in s.disk) && 0 in s.disk &&
    0 !in s.free
  }

  ghost predicate RootOk(a: nat, s: State) {
    |s.root| == ROOT_SLOTS && forall i :: 0 <= i < ROOT_SLOTS ==> s.root[i] == Entry(s, Top(i))
  }

  /** An indirect block holds the pointers of its children; below a missing one there is nothing. */
  ghost predicate CellsOk(a: nat, s: State) {
    forall p: Path, i: nat :: IsNode(a, p) && i < a ==> CellOk(s, p, i)
  }

  ghost predicate CellOk(s: State, p: Path, i: nat)
    requires 0 < |p|
  {
    if At(s, p) == 0 then At(s, Child(p, i)) == 0
    else i < |NodeData(s, p)| && NodeData(s, p)[i] == Entry(s, Child(p, i))
  }

  /** Every block is named once, and is on disk and not free. */
  ghost predicate OwnedOk(a: nat, s: State) {
    (forall p :: At(s, p) != 0 ==> IsPath(a, p) && At(s, p) in s.disk && At(s, p) !in s.free) &&
    forall p, q :: IsPath(a, p) && IsPath(a, q) && At(s, p) != 0 && At(s, p) == At(s, q) ==> p == q
  }

  ghost predicate SlotOk(a: nat, s: State, d: nat)
    requires d < |s.slots| == |s.own|
  {
    match s.slots[d]
    case Empty => true
    case Loose(junk) => |junk| == a
    case Holds(bno, data) => |data| == a && IsNode(a, s.own[d]) && Level(s.own[d]) == d && At(s, s.own[d]) == bno != 0
  }

  ghost predicate SlotsOk(a: nat, s: State) {
    |s.slots| == |s.own| == 3 && SlotOk(a, s, 0) && SlotOk(a, s, 1) && SlotOk(a, s, 2)
  }

  ghost predicate DeadOk(a: nat, s: State) {
    forall p :: p in s.dead ==> IsLeaf(a, p) && At(s, p) == 0 && HasPlace(s, p)
  }

  ghost predicate Ok(a: nat, s: State) {
    DiskOk(a, s) && RootOk(a, s) && CellsOk(a, s) && OwnedOk(a, s) && SlotsOk(a, s) && DeadOk(a, s)
  }

  // ---------------------------------------------------------------------------------------
  // Steps

  /** The content of a slot is on disk. */
  ghost predicate Clean(s: State, d: nat) {
    d < |s.slots| && (s.slots[d].Holds? ==> s.slots[d].bno in s.disk && s.disk[s.slots[d].bno] == s.slots[d].data)
  }

  ghost function Evicted(s: State, d: nat): State
    requires d < |s.slots|
  {
    match s.slots[d]
    case Empty => s
    case Loose(junk) => s.(disk := s.disk[0 := junk], strays := s.strays + 1)
    case Holds(b, data) => s.(disk := s.disk[b := data])
  }

  lemma EvictKeeps(a: nat, s: State, d: nat)
    requires Ok(a, s) && d < 3
    ensures Ok(a, Evicted(s, d)) && Clean(Evicted(s, d), d)
  {
    if !s.slots[d].Empty? {
      var t := Evicted(s, d);
      assert SlotOk(a, s, d);
      assert forall p :: At(t, p) == At(s, p);
      forall p: Path, i: nat | IsNode(a, p) && i < a ensures CellOk(t, p, i) {
        assert CellOk(s, p, i);
        if s.slots[d].Holds? && At(s, p) == s.slots[d].bno {
          assert p == s.own[d];
        }
      }
    }
  }

  /** A slot gets a buffer. */
  ghost function Allocated(s: State, d: nat, junk: seq<nat>): State
    requires d < |s.slots|
  {
    s.(slots := s.slots[d := Loose(junk)])
  }

  lemma AllocKeeps(a: nat, s: State, d: nat, junk: seq<nat>)
    requires Ok(a, s) && d < 3 && s.slots[d].Empty? && |junk| == a
    ensures Ok(a, Allocated(s, d, junk)) && Clean(Allocated(s, d, junk), d) && Looked(a, s, Allocated(s, d, junk))
  {
    var t := Allocated(s, d, junk);
    assert forall p :: At(t, p) == At(s, p);
    assert SlotOk(a, s, 0) && SlotOk(a, s, 1) && SlotOk(a, s, 2);
    forall p: Path, i: nat | IsNode(a, p) && i < a ensures CellOk(t, p, i) {
      assert CellOk(s, p, i);
    }
  }

  /** The slot is read through pointer p. */
  ghost function Loaded(s: State, d: nat, p: Path): State
    requires d < |s.slots| == |s.own| && At(s, p) in s.disk
  {
    s.(slots := s.slots[d := Holds(At(s, p), s.disk[At(s, p)])], own := s.own[d := p])
  }

  lemma LoadKeeps(a: nat, s: State, d: nat, p: Path)
    requires Ok(a, s) && d < 3 && Clean(s, d) && IsNode(a, p) && Level(p) == d && At(s, p) != 0 && !Held(s, d, At(s, p))
    ensures At(s, p) in s.disk && Ok(a, Loaded(s, d, p))
  {
    assert At(s, p) in s.disk;
    var t := Loaded(s, d, p);
    assert forall q :: At(t, q) == At(s, q);
    assert SlotOk(a, s, d);
    forall q: Path, i: nat | IsNode(a, q) && i < a ensures CellOk(t, q, i) {
      assert CellOk(s, q, i);
      if At(s, q) == At(s, p) {
        assert At(s, q) != 0 ==> q == p;
      } else if s.slots[d].Holds? && At(s, q) == s.slots[d].bno {
        assert q == s.own[d];
      }
    }
  }

  /** The block of pointers that pointer p itself is in: the inode, or the slot one level up. */
  ghost predicate ParentReady(s: State, p: Path) {
    |p| > 1 ==>
      var q, d := p[..|p| - 1], Level(p) + 1;
      0 <= d < |s.slots| == |s.own| && s.own[d] == q && At(s, q) != 0 && Held(s, d, At(s, q))
  }

  /** Pointer p is set to v where it is kept. */
  ghost function PutCell(s: State, p: Path, v: nat): State
    requires 0 < |p| && (|p| == 1 ==> p[0] < |s.root|) && ParentReady(s, p)
    requires |p| > 1 ==> p[|p| - 1] < |s.slots[Level(p) + 1].data|
  {
    if |p| == 1 then s.(root := s.root[p[0] := v])
    else
      var d := Level(p) + 1;
      s.(slots := s.slots[d := s.slots[d].(data := s.slots[d].data[p[|p| - 1] := v])])
  }

  /** A fresh block becomes the indirect block at p, without pointers. */
  ghost function Created(a: nat, s: State, d: nat, p: Path, n: nat): State
    requires 0 < |p| && (|p| == 1 ==> p[0] < |s.root|) && ParentReady(s, p) && d < |s.slots| == |s.own|
    requires |p| > 1 ==> p[|p| - 1] < |s.slots[Level(p) + 1].data|
  {
    var t := PutCell(s, p, n);
    t.(slots := t.slots[d := Holds(n, seq(a, i => 0))], own := t.own[d := p], ptr := s.ptr[p := n],
      free := s.free - {n})
  }

  lemma CellIndex(a: nat, s: State, p: Path)
    requires SlotsOk(a, s) && RootOk(a, s) && IsPath(a, p) && ParentReady(s, p)
    ensures |p| == 1 ==> p[0] < |s.root|
    ensures |p| > 1 ==> p[|p| - 1] < a == |s.slots[Level(p) + 1].data| && IsNode(a, p[..|p| - 1])
  {
    if |p| > 1 {
      assert SlotOk(a, s, Level(p) + 1);
    }
  }

  /** A block that no pointer names. */
  ghost predicate Fresh(a: nat, s: State, n: nat) {
    n != 0 && n in s.disk && forall p :: IsPath(a, p) ==> At(s, p) != n
  }

  lemma FreeIsFresh(a: nat, s: State, n: nat)
    requires Ok(a, s) && n in s.free
    ensures Fresh(a, s, n)
  {
  }

  lemma ChildIs(p: Path, q: Path, i: nat)
    ensures Child(q, i) == p <==> |p| > 0 && q == p[..|p| - 1] && i == p[|p| - 1]
  {
    if |p| > 0 && q == p[..|p| - 1] && i == p[|p| - 1] {
      assert p == p[..|p| - 1] + [p[|p| - 1]];
    }
    assert Child(q, i)[..|q|] == q;
  }

  lemma CreateCell(a: nat, s: State, d: nat, p: Path, n: nat, q: Path, i: nat)
    requires CellIndexed(a, s, p) && IsNode(a, p) && Level(p) == d && At(s, p) == 0 && Clean(s, d) && n != 0
    requires IsNode(a, q) && i < a && CellOk(s, q, i) && SlotsOk(a, s) && OwnedOk(a, s) && Fresh(a, s, n)
    requires DeadOk(a, s)
    ensures CellOk(Created(a, s, d, p, n), q, i)
  {
    var t := Created(a, s, d, p, n);
    ChildIs(p, q, i);
    assert forall r :: At(t, r) == if r == p then n else At(s, r);
    if q == p {
      assert NodeData(t, p) == seq(a, i => 0);
    } else if At(s, q) != 0 {
      CreateNode(a, s, d, p, n, q);
    }
  }

  /** The other indirect blocks keep their pointers, but for the one that now names the new block. */
  lemma CreateNode(a: nat, s: State, d: nat, p: Path, n: nat, q: Path)
    requires CellIndexed(a, s, p) && IsNode(a, p) && Level(p) == d && Clean(s, d) && IsNode(a, q) && q != p &&
             At(s, q) != 0
    requires SlotsOk(a, s) && OwnedOk(a, s) && Fresh(a, s, n)
    ensures |p| > 1 && q == p[..|p| - 1] ==> p[|p| - 1] < |NodeData(s, q)|
    ensures var was := NodeData(s, q);
            NodeData(Created(a, s, d, p, n), q) == if |p| > 1 && q == p[..|p| - 1] then was[p[|p| - 1] := n] else was
  {
    var t := Created(a, s, d, p, n);
    assert At(t, q) == At(s, q) != n;
    assert SlotOk(a, s, d);
    if Held(s, d, At(s, q)) {
      assert q == s.own[d];
    }
    if |p| > 1 && Held(s, d + 1, At(s, q)) {
      assert SlotOk(a, s, d + 1);
      assert q == s.own[d + 1];
    }
  }

  ghost predicate CellIndexed(a: nat, s: State, p: Path) {
    0 < |p| && (|p| == 1 ==> p[0] < |s.root|) && ParentReady(s, p) && |s.slots| == |s.own| == 3 &&
    (|p| > 1 ==> p[|p| - 1] < a == |s.slots[Level(p) + 1].data|)
  }

  lemma CreateKeeps(a: nat, s: State, d: nat, p: Path, n: nat)
    requires Ok(a, s) && IsNode(a, p) && Level(p) == d && At(s, p) == 0 && Clean(s, d) && ParentReady(s, p) &&
             n in s.free
    ensures CellIndexed(a, s, p) && Ok(a, Created(a, s, d, p, n))
  {
    CellIndex(a, s, p);
    FreeIsFresh(a, s, n);
    var t := Created(a, s, d, p, n);
    assert forall r :: At(t, r) == if r == p then n else At(s, r);
    forall q: Path, i: nat | IsNode(a, q) && i < a ensures CellOk(t, q, i) {
      assert CellOk(s, q, i);
      CreateCell(a, s, d, p, n, q, i);
    }
    CreateSlots(a, s, d, p, n);
  }

  lemma CreateSlots(a: nat, s: State, d: nat, p: Path, n: nat)
    requires SlotsOk(a, s) && CellIndexed(a, s, p) && IsNode(a, p) && Level(p) == d && At(s, p) == 0 && n != 0
    ensures SlotsOk(a, Created(a, s, d, p, n))
  {
  }

  /** The pointer of a data block is set. */
  ghost function Stored(a: nat, s: State, p: Path, v: nat): State
    requires CellIndexed(a, s, p)
  {
    PutCell(s, p, v).(ptr := s.ptr[p := v], dead := s.dead - {p})
  }

  lemma StoreCell(a: nat, s: State, p: Path, v: nat, q: Path, i: nat)
    requires CellIndexed(a, s, p) && IsLeaf(a, p) && SlotsOk(a, s) && OwnedOk(a, s)
    requires IsNode(a, q) && i < a && CellOk(s, q, i)
    ensures CellOk(Stored(a, s, p, v), q, i)
  {
    var t := Stored(a, s, p, v);
    ChildIs(p, q, i);
    assert forall r :: At(t, r) == if r == p then v else At(s, r);
    if At(s, q) != 0 && Held(s, 0, At(s, q)) {
      assert SlotOk(a, s, 0);
      assert q == s.own[0];
    }
  }

  lemma StoreKeeps(a: nat, s: State, p: Path, v: nat)
    requires Ok(a, s) && IsLeaf(a, p) && ParentReady(s, p)
    requires v == 0 || (Fresh(a, s, v) && v !in s.free) || v == At(s, p)
    ensures CellIndexed(a, s, p) && Ok(a, Stored(a, s, p, v))
  {
    hide CellsOk, OwnedOk, DeadOk, Fresh, SlotOk;
    CellIndex(a, s, p);
    hide DiskOk, RootOk, SlotsOk;
    StoreSlots(a, s, p, v);
    StoreOwned(a, s, p, v);
    StoreRoot(a, s, p, v);
    StoreCells(a, s, p, v);
  }

  lemma StoreRoot(a: nat, s: State, p: Path, v: nat)
    requires RootOk(a, s) && DeadOk(a, s) && DiskOk(a, s) && CellIndexed(a, s, p) && IsLeaf(a, p)
    ensures RootOk(a, Stored(a, s, p, v)) && DeadOk(a, Stored(a, s, p, v)) && DiskOk(a, Stored(a, s, p, v))
  {
    var t := Stored(a, s, p, v);
    assert forall r :: At(t, r) == if r == p then v else At(s, r);
    forall i: nat | i < ROOT_SLOTS ensures t.root[i] == Entry(t, Top(i)) {
      assert s.root[i] == Entry(s, Top(i));
      assert Top(i) == p <==> |p| == 1 && p[0] == i;
    }
    forall q | q in t.dead ensures IsLeaf(a, q) && At(t, q) == 0 && HasPlace(t, q) {
      assert |q| > 1 ==> q[..|q| - 1] != p by {
        assert |q| > 1 ==> q[..|q| - 1][0] == q[0];
      }
    }
  }

  lemma StoreCells(a: nat, s: State, p: Path, v: nat)
    requires Ok(a, s) && IsLeaf(a, p) && ParentReady(s, p) && CellIndexed(a, s, p)
    requires v == 0 || (Fresh(a, s, v) && v !in s.free) || v == At(s, p)
    ensures CellsOk(a, Stored(a, s, p, v))
  {
    hide CellOk, Fresh, DiskOk, RootOk, OwnedOk, SlotsOk, DeadOk, CellIndexed, ParentReady;
    forall q: Path, i: nat | IsNode(a, q) && i < a ensures CellOk(Stored(a, s, p, v), q, i) {
      assert CellOk(s, q, i);
      StoreCell(a, s, p, v, q, i);
    }
  }

  lemma StoreOwned(a: nat, s: State, p: Path, v: nat)
    requires OwnedOk(a, s) && CellIndexed(a, s, p) && IsLeaf(a, p)
    requires v == 0 || (Fresh(a, s, v) && v !in s.free) || v == At(s, p)
    ensures OwnedOk(a, Stored(a, s, p, v))
  {
    assert forall r :: At(Stored(a, s, p, v), r) == if r == p then v else At(s, r);
    hide IsPath;
  }

  lemma StoreSlots(a: nat, s: State, p: Path, v: nat)
    requires SlotsOk(a, s) && CellIndexed(a, s, p) && IsLeaf(a, p)
    ensures SlotsOk(a, Stored(a, s, p, v))
  {
  }

  // ---------------------------------------------------------------------------------------
  // The tree on disk

  /** The block a pointer names, found without any cache. */
  ghost function Walk(disk: map<nat, seq<nat>>, root: seq<nat>, p: Path): nat
    requires 0 < |p|
  {
    var n := |p| - 1;
    if n == 0 then if p[0] < |root| then root[p[0]] else 0
    else
      var b := Walk(disk, root, p[..n]);
      if b == 0 || b !in disk || p[n] >= |disk[b]| then 0 else disk[b][p[n]]
  }

  ghost function WrittenBack(s: State): State
    requires |s.slots| == 3
  {
    Evicted(Evicted(Evicted(s, 0), 1), 2)
  }

  lemma WriteBackKeeps(a: nat, s: State)
    requires Ok(a, s)
    ensures var t := WrittenBack(s); Ok(a, t) && Clean(t, 0) && Clean(t, 1) && Clean(t, 2)
    ensures WrittenBack(s) == s.(disk := WrittenBack(s).disk, strays := WrittenBack(s).strays)
  {
    EvictKeeps(a, s, 0);
    var t := Evicted(s, 0);
    EvictKeeps(a, t, 1);
    assert SlotOk(a, s, 0) && SlotOk(a, s, 1) && SlotOk(a, s, 2);
    EvictKeeps(a, Evicted(t, 1), 2);
  }

  /** Once the slots are written back, the disk alone holds the tree: no change was lost. */
  lemma {:induction false} WalkFinds(a: nat, s: State, p: Path)
    requires Ok(a, s) && IsPath(a, p)
    ensures Walk(WrittenBack(s).disk, s.root, p) == Entry(s, p)
    decreases |p|
  {
    WriteBackKeeps(a, s);
    var t, n := WrittenBack(s), |p| - 1;
    if n == 0 {
      assert p == Top(p[0]);
    } else {
      var q := p[..n];
      WalkFinds(a, s, q);
      ChildIs(p, q, p[n]);
      assert CellOk(t, q, p[n]);
      assert IsNode(a, q) && 0 <= Level(q) < 3;
      assert At(s, q) != 0 ==> NodeData(t, q) == t.disk[At(s, q)];
    }
  }

  /** The disk and the inode alone, without the slots, hold every pointer. */
  ghost predicate DiskHolds(a: nat, s: State) {
    forall p :: IsPath(a, p) ==> Walk(s.disk, s.root, p) == Entry(s, p)
  }

  lemma WrittenBackHolds(a: nat, s: State)
    requires Ok(a, s)
    ensures DiskHolds(a, WrittenBack(s))
  {
    WriteBackKeeps(a, s);
    forall p | IsPath(a, p) ensures Walk(WrittenBack(s).disk, s.root, p) == Entry(s, p) {
      WalkFinds(a, s, p);
    }
  }

  // ---------------------------------------------------------------------------------------
  // Lookups

  ghost predicate IsIndirect(a: nat, s: State, b: nat) {
    exists p :: IsNode(a, p) && At(s, p) == b && b != 0
  }

  /** What may have been written where the disk differs: an indirect block, which was one or was free, or block 0. */
  ghost predicate MayDiffer(a: nat, s: State, t: State, b: nat) {
    (IsIndirect(a, t, b) && (IsIndirect(a, s, b) || b in s.free)) || (b == 0 && s.strays < t.strays)
  }

  /**
   * Indirect blocks were at most added, from the free ones, and nothing else was written but, as
   * often as counted, block 0.
   */
  ghost predicate Wrote(a: nat, s: State, t: State) {
    s.disk.Keys == t.disk.Keys && t.free <= s.free && s.strays <= t.strays &&
    (forall p :: IsNode(a, p) && At(s, p) != 0 ==> At(t, p) == At(s, p)) &&
    (forall p :: IsNode(a, p) && At(t, p) != At(s, p) ==> At(t, p) in s.free) &&
    (forall b :: b in s.disk && s.disk[b] != t.disk[b] ==> MayDiffer(a, s, t, b))
  }

  lemma WroteTrans(a: nat, s: State, t: State, u: State)
    requires Wrote(a, s, t) && Wrote(a, t, u)
    ensures Wrote(a, s, u)
  {
    hide At;
    forall b | b in s.disk && s.disk[b] != u.disk[b] ensures MayDiffer(a, s, u, b) {
      if t.disk[b] != u.disk[b] {
        assert MayDiffer(a, t, u, b);
        if IsIndirect(a, t, b) {
          var p :| IsNode(a, p) && At(t, p) == b && b != 0;
          assert At(s, p) == b || b in s.free;
        }
      } else {
        assert MayDiffer(a, s, t, b);
        if IsIndirect(a, t, b) {
          var p :| IsNode(a, p) && At(t, p) == b && b != 0;
          assert At(u, p) == b;
        }
      }
    }
  }

  /** A lookup: data pointers are as they were, and indirect blocks were at most added. */
  ghost predicate Looked(a: nat, s: State, t: State) {
    Wrote(a, s, t) && s.dead == t.dead && |s.root| == |t.root| &&
    (forall p :: IsLeaf(a, p) ==> At(t, p) == At(s, p)) &&
    (forall p :: At(s, p) != 0 ==> At(t, p) == At(s, p)) &&
    (forall p :: At(t, p) != At(s, p) ==> At(t, p) in s.free && At(t, p) !in t.free)
  }

  lemma LookedTrans(a: nat, s: State, t: State, u: State)
    requires Looked(a, s, t) && Looked(a, t, u)
    ensures Looked(a, s, u)
  {
    WroteTrans(a, s, t, u);
    hide Wrote;
    assert t.free <= s.free && u.free <= t.free by { WroteFree(a, s, t); WroteFree(a, t, u); }
  }

  lemma WroteFree(a: nat, s: State, t: State)
    requires Wrote(a, s, t)
    ensures t.free <= s.free && s.disk.Keys == t.disk.Keys && s.strays <= t.strays
  {
  }

  lemma EvictLooked(a: nat, s: State, d: nat)
    requires Ok(a, s) && d < 3
    ensures Looked(a, s, Evicted(s, d))
  {
    var t := Evicted(s, d);
    assert SlotOk(a, s, d);
    assert forall p :: At(t, p) == At(s, p);
    if s.slots[d].Holds? {
      assert IsIndirect(a, s, s.slots[d].bno) && IsIndirect(a, t, s.slots[d].bno);
    }
  }

  lemma LoadLooked(a: nat, s: State, d: nat, p: Path)
    requires d < |s.slots| == |s.own| && At(s, p) in s.disk
    ensures Looked(a, s, Loaded(s, d, p))
  {
  }

  lemma CreateLooked(a: nat, s: State, d: nat, p: Path, n: nat)
    requires CellIndexed(a, s, p) && d < 3 && IsNode(a, p) && At(s, p) == 0 && n in s.free
    ensures Looked(a, s, Created(a, s, d, p, n))
  {
  }

  /** The blocks that are free or named: no step of this module loses one or takes one from elsewhere. */
  ghost function Total(free: set<nat>, ptr: map<Path, nat>): set<nat> {
    free + set p | p in ptr && ptr[p] != 0 :: ptr[p]
  }

  /** A missing pointer comes to name a free block. */
  lemma TakeTotal(free: set<nat>, ptr: map<Path, nat>, p: Path, n: nat)
    requires (p in ptr ==> ptr[p] == 0) && n in free && n != 0
    ensures Total(free - {n}, ptr[p := n]) == Total(free, ptr)
  {
    var more := ptr[p := n];
    forall b ensures b in Total(free - {n}, more) <==> b in Total(free, ptr) {
      if b in Total(free, ptr) && b !in free {
        var q :| q in ptr && ptr[q] != 0 && ptr[q] == b;
        assert q in more && more[q] == b;
      }
      if b in Total(free - {n}, more) && b !in free {
        var q :| q in more && more[q] != 0 && more[q] == b;
        assert q in ptr && ptr[q] == b;
      }
      assert p in more && more[p] == n;
    }
  }

  /** A pointer on the way from the inode to p. */
  ghost predicate OnWay(q: Path, p: Path) {
    0 < |q| < |p| && q == p[..|q|]
  }

  /** The place a pointer is kept: in the inode, or in the buffer of a slot. */
  datatype Cell = InInode(slot: nat) | InBlock(d: nat, entry: nat)

  ghost predicate CellFor(c: Cell, p: Path) {
    0 < |p| && if |p| == 1 then c == InInode(p[0]) else Level(p) >= -1 && c == InBlock(Level(p) + 1, p[|p| - 1])
  }

  predicate CellIn(c: Cell, root: seq<nat>, slots: seq<Slot>) {
    match c
    case InInode(i) => i < |root|
    case InBlock(d, i) => d < |slots| && slots[d].Holds? && i < |slots[d].data|
  }

  function CellValue(c: Cell, root: seq<nat>, slots: seq<Slot>): nat
    requires CellIn(c, root, slots)
  {
    match c
    case InInode(i) => root[i]
    case InBlock(d, i) => slots[d].data[i]
  }

  /** A cell shows the pointer it is for. */
  lemma CellShows(a: nat, s: State, c: Cell, p: Path)
    requires Ok(a, s) && IsPath(a, p) && CellFor(c, p) && ParentReady(s, p)
    ensures CellIndexed(a, s, p) && CellIn(c, s.root, s.slots)
    ensures CellValue(c, s.root, s.slots) == Entry(s, p)
  {
    CellIndex(a, s, p);
    if |p| == 1 {
      assert p == Top(p[0]);
    } else {
      var q := p[..|p| - 1];
      ChildIs(p, q, p[|p| - 1]);
      assert CellOk(s, q, p[|p| - 1]);
    }
  }

  lemma ThreeSlots(a: nat, s: State)
    requires Ok(a, s)
    ensures |s.slots| == |s.own| == 3
  {
  }

  lemma LookedSame(a: nat, s: State)
    ensures Looked(a, s, s)
  {
  }

  lemma NodeAlive(a: nat, s: State, p: Path)
    requires Ok(a, s) && IsNode(a, p)
    ensures 0 <= Level(p) < 3 && p !in s.dead && Entry(s, p) == At(s, p) && (At(s, p) != 0 ==> At(s, p) in s.disk)
  {
  }

  lemma HeldIsOwn(a: nat, s: State, d: nat, p: Path)
    requires Ok(a, s) && IsNode(a, p) && At(s, p) != 0 && Held(s, d, At(s, p))
    ensures s.own[d] == p
  {
    assert SlotOk(a, s, d);
  }

  /** The entries of a path, from the data block up. */
  ghost predicate OffsFor(offs: array<nat>, depth: nat, p: Path)
    reads offs
  {
    offs.Length == 4 && depth == |p| <= 4 && forall k :: 0 <= k < |p| ==> offs[k] == p[|p| - 1 - k]
  }

  /** Whether there is an indirect block of level k on the way to p, and if so, that its slot has it. */
  ghost predicate FoundOk(s: State, p: Path, k: nat, found: bool) {
    if k + 2 > |p| then !found
    else
      var q := p[..|p| - 1 - k];
      found == (At(s, q) != 0) && (found ==> k < |s.own| && s.own[k] == q && Held(s, k, At(s, q)))
  }

  lemma NoSuchLevels(s: State, p: Path)
    ensures forall k: nat :: k + 2 > |p| ==> FoundOk(s, p, k, false)
  {
  }

  lemma LeafTop(a: nat, p: Path)
    requires IsLeaf(a, p)
    ensures 0 < |p| <= 4 && |p| == Height(p[0]) + 1
  {
  }

  lemma PrefixReady(a: nat, s: State, c: Cell, k: nat, p: Path)
    requires Ok(a, s) && IsLeaf(a, p) && k + 2 <= |p| <= 4
    requires c == if |p| == k + 2 then InInode(p[0]) else InBlock(k + 1, p[|p| - 2 - k])
    requires |p| > k + 2 ==> FoundOk(s, p, k + 1, true)
    ensures var q := p[..|p| - 1 - k]; IsNode(a, q) && Level(q) == k && CellFor(c, q) && ParentReady(s, q)
  {
    var q := p[..|p| - 1 - k];
    assert |p| > k + 2 ==> q[..|q| - 1] == p[..|p| - 2 - k];
  }

  lemma StillFound(s: State, t: State, p: Path, k: nat, j: nat, b: bool)
    requires k < j < 3 && k + 2 <= |p| && OthersStay(s, t, k) && FoundOk(s, p, j, b)
    requires forall q :: q != p[..|p| - 1 - k] ==> At(t, q) == At(s, q)
    ensures FoundOk(t, p, j, b)
  {
  }

  lemma NoneBelow(a: nat, s: State, p: Path, k: nat)
    requires Ok(a, s) && IsLeaf(a, p) && FoundOk(s, p, k, false) && k + 2 <= |p|
    ensures forall j: nat :: j < k ==> FoundOk(s, p, j, false)
  {
    var j: nat := k;
    while j > 0
      invariant j <= k && At(s, p[..|p| - 1 - j]) == 0
      invariant forall i: nat :: j <= i < k ==> FoundOk(s, p, i, false)
    {
      var q, n := p[..|p| - 1 - j], |p| - 1 - j;
      assert p[..n + 1] == Child(q, p[n]);
      assert CellOk(s, q, p[n]);
      j := j - 1;
    }
  }

  /** All indirect blocks on the way to a block exist. */
  ghost predicate NodesThere(a: nat, s: State, index: nat)
    requires a > 0 && index < Limit(a)
  {
    var p := PathOf(a, index);
    forall m :: 1 <= m < |p| ==> At(s, p[..m]) != 0
  }

  lemma AllFound(a: nat, s: State, p: Path, found: seq<bool>)
    requires Ok(a, s) && IsLeaf(a, p) && |found| == 3 && forall k :: 0 <= k < 3 ==> FoundOk(s, p, k, found[k])
    requires forall k :: 0 <= k < |p| - 1 ==> found[k]
    ensures ParentReady(s, p) && forall m :: 1 <= m < |p| ==> At(s, p[..m]) != 0
  {
    forall m | 1 <= m < |p| ensures At(s, p[..m]) != 0 {
      var k := |p| - 1 - m;
      assert FoundOk(s, p, k, found[k]) && p[..|p| - 1 - k] == p[..m];
    }
    if |p| > 1 {
      assert FoundOk(s, p, 0, found[0]);
    }
  }

  /** Slots other than d stay with the block they hold. */
  ghost predicate OthersStay(s: State, t: State, d: nat) {
    |s.slots| == |t.slots| == |s.own| == |t.own| == 3 &&
    forall e :: 0 <= e < 3 && e != d ==>
      t.own[e] == s.own[e] && t.slots[e].Holds? == s.slots[e].Holds? && t.slots[e].Empty? == s.slots[e].Empty? &&
      (s.slots[e].Holds? ==> t.slots[e].bno == s.slots[e].bno)
  }

  /** How many blocks the pointers name. */
  ghost function Used(ptr: map<Path, nat>): nat {
    |set p | p in ptr && ptr[p] != 0|
  }

  /** In sectors, as i_blocks counts them. */
  ghost function Weight(sectors: nat, n: nat): nat {
    sectors * n
  }

  lemma WeightMore(sectors: nat, n: nat)
    ensures Weight(sectors, n + 1) == Weight(sectors, n) + sectors
  {
  }

  lemma UsedMore(ptr: map<Path, nat>, p: Path, n: nat)
    ensures Used(ptr[p := n]) == Used(ptr) + (if n != 0 then 1 else 0) - (if p in ptr && ptr[p] != 0 then 1 else 0)
  {
    var more := ptr[p := n];
    var before, after := set q | q in ptr && ptr[q] != 0, set q | q in more && more[q] != 0;
    if n != 0 {
      assert after == before + {p};
    } else {
      assert after == before - {p};
    }
  }

  lemma UsedNew(s: State, p: Path, n: nat)
    requires At(s, p) == 0 && n != 0
    ensures Used(s.ptr[p := n]) == Used(s.ptr) + 1
  {
    UsedMore(s.ptr, p, n);
  }

  lemma CreateShows(a: nat, s: State, d: nat, p: Path, n: nat)
    requires CellIndexed(a, s, p) && SlotsOk(a, s) && IsNode(a, p) && Level(p) == d < 3
    ensures var t := Created(a, s, d, p, n);
            OthersStay(s, t, d) && At(t, p) == n && t.own[d] == p && Held(t, d, n) &&
            forall q :: q != p ==> At(t, q) == At(s, q)
  {
  }

  /** A block taken off the free ones is fresh for a pointer. */
  lemma Taken(a: nat, s: State, b: nat)
    requires Ok(a, s) && b in s.free
    ensures var t := s.(free := s.free - {b}); Ok(a, t) && Fresh(a, t, b) && b !in t.free && b > 0
  {
    var t := s.(free := s.free - {b});
    FreeIsFresh(a, s, b);
    assert forall p :: At(t, p) == At(s, p);
    forall p: Path, i: nat | IsNode(a, p) && i < a ensures CellOk(t, p, i) {
      assert CellOk(s, p, i);
    }
  }

  lemma FreeOnly(a: nat, s: State, t: State, p: Path)
    requires t == s.(free := t.free)
    ensures ParentReady(t, p) == ParentReady(s, p) && CellIndexed(a, t, p) == CellIndexed(a, s, p) &&
            At(t, p) == At(s, p)
  {
  }

  // ---------------------------------------------------------------------------------------
  // Creations that fail

  /** Some slot has a buffer without a block. */
  ghost predicate AnyLoose(s: State) {
    |s.slots| == 3 && (s.slots[0].Loose? || s.slots[1].Loose? || s.slots[2].Loose?)
  }

  /** Block 0 was written since, or is about to be, exactly if it was about to be before or `stranded` holds. */
  ghost predicate Strayed(s: State, t: State, stranded: bool) {
    s.strays <= t.strays && (AnyLoose(t) || s.strays < t.strays <==> AnyLoose(s) || stranded)
  }

  lemma StrayedTrans(s: State, t: State, u: State, x: bool, y: bool)
    requires Strayed(s, t, x) && Strayed(t, u, y)
    ensures Strayed(s, u, x || y)
  {
  }

  /** A lookup that, if it succeeded, left no buffer without a block. */
  ghost predicate Seen(a: nat, s: State, t: State, succeeded: bool) {
    Looked(a, s, t) && (succeeded ==> Strayed(s, t, false))
  }

  lemma SeenTrans(a: nat, s: State, t: State, u: State, succeeded: bool)
    requires Seen(a, s, t, true) && Seen(a, t, u, succeeded)
    ensures Seen(a, s, u, succeeded)
  {
    LookedTrans(a, s, t, u);
    if succeeded {
      StrayedTrans(s, t, u, false, false);
    }
  }

  lemma SeenSame(a: nat, s: State)
    ensures Seen(a, s, s, true)
  {
  }

  lemma SeenLooked(a: nat, s: State, t: State, succeeded: bool)
    requires Seen(a, s, t, succeeded)
    ensures Looked(a, s, t)
  {
  }

  /** The indirect blocks missing on the way to p, from the one of m entries on. */
  ghost function Missing(s: State, p: Path, m: nat): nat
    decreases |p| - m
  {
    if m >= |p| then 0 else (if At(s, p[..m]) == 0 then 1 else 0) + Missing(s, p, m + 1)
  }

  /** With f blocks to give, the creation that fails on the way to p is for a level whose slot has no buffer. */
  ghost predicate StrandsFrom(s: State, p: Path, m: nat, f: nat)
    decreases |p| - m
  {
    if m >= |p| then false
    else if At(s, p[..m]) != 0 then StrandsFrom(s, p, m + 1, f)
    else if f == 0 then
      var k := |p| - 1 - m;
      k < |s.slots| && s.slots[k].Empty?
    else StrandsFrom(s, p, m + 1, f - 1)
  }

  /** What a caller can see before a lookup: whether it will leave a slot with a buffer and no block. */
  ghost predicate Strands(a: nat, s: State, index: nat) {
    a > 0 && index < Limit(a) && StrandsFrom(s, PathOf(a, index), 1, |s.free|)
  }

  /** One that does so fails: there are fewer free blocks than indirect blocks to create. */
  lemma {:induction false} StrandsFails(s: State, p: Path, m: nat, f: nat)
    requires StrandsFrom(s, p, m, f)
    ensures f < Missing(s, p, m)
    decreases |p| - m
  {
    if At(s, p[..m]) != 0 {
      StrandsFails(s, p, m + 1, f);
    } else if f > 0 {
      StrandsFails(s, p, m + 1, f - 1);
    }
  }

  /** What happens at one level changes nothing of the levels below. */
  lemma {:induction false} SameBelow(s: State, t: State, p: Path, k: nat, m: nat, f: nat)
    requires k < |p| <= 4 && |p| - 1 - k < m && OthersStay(s, t, k) &&
             forall q :: q != p[..|p| - 1 - k] ==> At(t, q) == At(s, q)
    ensures Missing(t, p, m) == Missing(s, p, m) && StrandsFrom(t, p, m, f) == StrandsFrom(s, p, m, f)
    decreases |p| - m
  {
    if m < |p| {
      SameBelow(s, t, p, k, m + 1, f);
      if f > 0 {
        SameBelow(s, t, p, k, m + 1, f - 1);
      }
      assert |p[..m]| != |p[..|p| - 1 - k]|;
    }
  }

  /** One level further down the way to p. */
  lemma LevelDone(s: State, t: State, p: Path, k: nat)
    requires k + 2 <= |p| <= 4 && OthersStay(s, t, k) && forall q :: q != p[..|p| - 1 - k] ==> At(t, q) == At(s, q)
    ensures var m := |p| - 1 - k;
            var missing, fails := At(s, p[..m]) == 0, At(s, p[..m]) == 0 && s.free == {};
            && (fails ==> |s.free| < Missing(s, p, m) && (StrandsFrom(s, p, m, |s.free|) <==> s.slots[k].Empty?))
            && (!fails && |t.free| == |s.free| - (if missing then 1 else 0) ==>
                  |s.free| - Missing(s, p, m) == |t.free| - Missing(t, p, m + 1) &&
                  (StrandsFrom(s, p, m, |s.free|) <==> StrandsFrom(t, p, m + 1, |t.free|)))
  {
    SameBelow(s, t, p, k, |p| - k, |t.free|);
    assert s.free != {} ==> |s.free| > 0;
  }

  /** What one level tells of the whole way, failing or passed. */
  ghost predicate LevelPassed(s: State, t: State, p: Path, k: nat, passed: bool)
    requires k + 2 <= |p|
  {
    var m := |p| - 1 - k;
    var left, strands := |s.free| - Missing(s, p, m), StrandsFrom(s, p, m, |s.free|);
    if passed then
      Strayed(s, t, false) && left == |t.free| - Missing(t, p, m + 1) &&
      (strands <==> StrandsFrom(t, p, m + 1, |t.free|))
    else left < 0 && Strayed(s, t, strands)
  }

  /** From s to t the way to p was passed up to its entry m, and what is to come of it is the same. */
  ghost predicate WayPassed(s: State, t: State, p: Path, m: nat, alloc: bool) {
    Strayed(s, t, false) &&
    (alloc ==>
       |s.free| - Missing(s, p, 1) == |t.free| - Missing(t, p, m) &&
       (StrandsFrom(s, p, 1, |s.free|) <==> StrandsFrom(t, p, m, |t.free|)))
  }

  lemma WayStep(s: State, t: State, u: State, p: Path, k: nat, alloc: bool, passed: bool)
    requires k + 2 <= |p| && WayPassed(s, t, p, |p| - 1 - k, alloc) && if alloc then LevelPassed(t, u, p, k, passed)
             else passed && Strayed(t, u, false)
    ensures passed ==> WayPassed(s, u, p, |p| - k, alloc)
    ensures !passed ==> |s.free| < Missing(s, p, 1) && Strayed(s, u, StrandsFrom(s, p, 1, |s.free|))
  {
    hide Missing, StrandsFrom, Strayed;
    StrayedTrans(s, t, u, false, !passed && StrandsFrom(t, p, |p| - 1 - k, |t.free|));
  }

  /** At the end of the way nothing is missing. */
  lemma WayDone(s: State, t: State, p: Path, alloc: bool)
    requires WayPassed(s, t, p, |p|, alloc)
    ensures Strayed(s, t, false) &&
            (alloc ==> |s.free| - Missing(s, p, 1) == |t.free| && !StrandsFrom(s, p, 1, |s.free|))
  {
    hide Strayed;
    assert Missing(t, p, |p|) == 0;
  }

  lemma WayQuit(s: State, t: State, p: Path, m: nat)
    requires WayPassed(s, t, p, m, false)
    ensures Strayed(s, t, false)
  {
  }

  lemma WayBegun(s: State, p: Path, alloc: bool)
    ensures WayPassed(s, s, p, 1, alloc)
  {
  }

  /** A slot was taken for another block: what it had without a block went to block 0, and it may be left so again. */
  lemma Exchanged(s: State, t: State, d: nat, stranded: bool)
    requires OthersStay(s, t, d) && d < 3 && t.strays == s.strays + (if s.slots[d].Loose? then 1 else 0)
    requires t.slots[d].Loose? ==> s.slots[d].Loose? || stranded
    requires stranded ==> t.slots[d].Loose?
    ensures Strayed(s, t, stranded)
  {
  }

  class Ext2Object {
    /** Pointers per block, and device sectors per block. */
    const a: nat
    const sectors: nat
    /** The device, and the blocks its bitmaps show as free. */
    var disk: map<nat, seq<nat>>
    var free: set<nat>
    /** `block` and `blocks` of the inode. */
    var block: seq<nat>
    var blocks: int
    var ind: seq<Slot>
    ghost var own: seq<Path>
    ghost var ptr: map<Path, nat>
    ghost var dead: map<Path, nat>
    /** How often block 0 was written from a slot. */
    ghost var strays: nat

    ghost function St(): State
      reads this
    {
      State(disk, block, ind, own, ptr, free, dead, strays)
    }

    /** An inode just read: no indirect block is in memory yet. */
    constructor (a: nat, sectors: nat, disk: map<nat, seq<nat>>, free: set<nat>, block: seq<nat>, blocks: int,
                 ghost ptr: map<Path, nat>)
      requires Ok(a, State(disk, block, [Empty, Empty, Empty], [[], [], []], ptr, free, map[], 0))
      ensures this.a == a && this.sectors == sectors && this.blocks == blocks
      ensures St() == State(disk, block, [Empty, Empty, Empty], [[], [], []], ptr, free, map[], 0)
    {
      this.a, this.sectors := a, sectors;
      this.disk, this.free, this.block, this.blocks, this.ind := disk, free, block, blocks, [Empty, Empty, Empty];
      this.own, this.ptr, this.dead, this.strays := [[], [], []], ptr, map[], 0;
    }

    /** What i_blocks is too much by, were every pointer counted. */
    ghost function Excess(): int
      reads this
    {
      blocks - Weight(sectors, Used(ptr))
    }

    function Value(c: Cell): nat
      reads this
      requires CellIn(c, block, ind)
    {
      CellValue(c, block, ind)
    }

    method SetCell(c: Cell, v: nat)
      requires CellIn(c, block, ind)
      modifies this`block, this`ind
      ensures match c
              case InInode(i) => block == old(block)[i := v] && ind == old(ind)
              case InBlock(d, i) =>
                block == old(block) && ind == old(ind)[d := Holds(old(ind)[d].bno, old(ind)[d].data[i := v])]
    {
      match c
      case InInode(i) => block := block[i := v];
      case InBlock(d, i) => ind := ind[d := ind[d].(data := ind[d].data[i := v])];
    }

    /** ext2_block_createone, as seen from here: some free block, as long as there is one. */
    method CreateOne() returns (err: int, bno: nat)
      modifies this`free
      ensures if old(free) == {} then err == -ENOSPC && free == old(free)
              else err == EOK && bno in old(free) && free == old(free) - {bno}
    {
      if free == {} {
        return -ENOSPC, 0;
      }
      bno :| bno in free;
      free := free - {bno};
      err := EOK;
    }

    /** There is no indirect block at p, and none could be created. */
    ghost predicate Fails(p: Path)
      reads this
    {
      At(St(), p) == 0 && free == {}
    }

    /**
     * ext2_block_readind: the indirect block that pointer p names comes into its slot, written back
     * from there before; a missing one is created if `alloc` says so.
     */
    method ReadInd(c: Cell, depth: nat, alloc: bool, ghost p: Path) returns (err: int, found: bool)
      requires Ok(a, St()) && IsNode(a, p) && depth == Level(p) + 2 && CellFor(c, p) && ParentReady(St(), p)
      modifies this
      ensures err == EOK || err == -ENOSPC
      ensures Ok(a, St()) && Looked(a, old(St()), St()) && OthersStay(old(St()), St(), depth - 2) &&
              Excess() == old(Excess()) && Total(free, ptr) == old(Total(free, ptr))
      ensures forall q :: q != p ==> At(St(), q) == old(At(St(), q))
      ensures err == EOK ==> found == (At(St(), p) != 0) && (alloc ==> found)
      ensures old(At(St(), p)) != 0 ==> err == EOK && ptr == old(ptr) && free == old(free) && blocks == old(blocks)
      ensures !alloc ==> err == EOK && ptr == old(ptr) && free == old(free) && blocks == old(blocks)
      ensures err == EOK && found ==> own[depth - 2] == p && Held(St(), depth - 2, At(St(), p))
      ensures err != EOK <==> alloc && old(Fails(p))
      ensures Strayed(old(St()), St(), alloc && old(Fails(p) && ind[depth - 2].Empty?))
      ensures err == EOK ==> |free| == |old(free)| - (if alloc && old(At(St(), p)) == 0 then 1 else 0)
    {
      hide IsPath, Looked, Total, Used, Weight, CellsOk, OwnedOk, DeadOk, DiskOk, RootOk;
      var d := depth - 2;
      ghost var s := St();
      CellShows(a, s, c, p);
      NodeAlive(a, s, p);
      LookedSame(a, s);
      var v := Value(c);
      if v == 0 && !alloc {
        return EOK, false;
      }
      if v != 0 && ind[d].Holds? && ind[d].bno == v {
        HeldIsOwn(a, s, d, p);
        return EOK, true;
      }
      err := Replace(c, d, p);
      found := err == EOK;
    }

    /** Writes a slot back; a buffer without a block goes to block 0. */
    method Evict(d: nat)
      requires Ok(a, St()) && d < 3
      modifies this`disk, this`strays
      ensures St() == Evicted(old(St()), d) && Ok(a, St()) && Clean(St(), d) && Looked(a, old(St()), St())
    {
      EvictKeeps(a, St(), d);
      EvictLooked(a, St(), d);
      hide Ok, Looked;
      if ind[d].Holds? {
        disk := disk[ind[d].bno := ind[d].data];
      } else if ind[d].Loose? {
        disk := disk[0 := ind[d].junk];
        strays := strays + 1;
      }
    }

    /** A slot without a buffer gets one, of memory as it comes. */
    method Allocate(d: nat)
      requires Ok(a, St()) && d < 3 && ind[d].Empty?
      modifies this`ind
      ensures |ind| == 3 && ind[d].Loose? && St() == Allocated(old(St()), d, ind[d].junk) && Ok(a, St()) &&
              Clean(St(), d)
      ensures Looked(a, old(St()), St())
    {
      var memory := new nat[a];
      AllocKeeps(a, St(), d, memory[..]);
      hide Ok, Looked;
      ind := ind[d := Loose(memory[..])];
    }

    /** A slot is made ready for another block: it has a buffer, and what it held is on disk. */
    method Prepare(d: nat, ghost p: Path)
      requires Ok(a, St()) && IsNode(a, p) && d == Level(p) < 3 && ParentReady(St(), p) && !Held(St(), d, At(St(), p))
      modifies this`disk, this`strays, this`ind
      ensures Ok(a, St()) && Clean(St(), d) && Looked(a, old(St()), St()) && OthersStay(old(St()), St(), d)
      ensures ParentReady(St(), p) && !Held(St(), d, At(St(), p)) && |ind| == |own| == 3 && |old(ind)| == 3
      ensures strays == old(strays) + (if old(ind)[d].Loose? then 1 else 0)
      ensures ind[d].Loose? == !old(ind)[d].Holds?
    {
      hide IsPath, Looked, Ok;
      ghost var s := St();
      assert |s.slots| == |s.own| == 3 by { ThreeSlots(a, s); }
      if ind[d].Empty? {
        Allocate(d);
      } else {
        Evict(d);
      }
    }

    /** A slot gives up what it has for the indirect block of p, which is read, or created if there is none. */
    method Replace(c: Cell, d: nat, ghost p: Path) returns (err: int)
      requires Ok(a, St()) && IsNode(a, p) && d == Level(p) && CellFor(c, p) && ParentReady(St(), p) &&
               !Held(St(), d, At(St(), p))
      modifies this
      ensures err == EOK || err == -ENOSPC
      ensures Ok(a, St()) && Looked(a, old(St()), St()) && OthersStay(old(St()), St(), d) &&
              Excess() == old(Excess()) && Total(free, ptr) == old(Total(free, ptr))
      ensures forall q :: q != p ==> At(St(), q) == old(At(St(), q))
      ensures old(At(St(), p)) != 0 ==> err == EOK && ptr == old(ptr) && free == old(free) && blocks == old(blocks)
      ensures err == EOK ==> At(St(), p) != 0 && own[d] == p && Held(St(), d, At(St(), p))
      ensures err != EOK <==> old(Fails(p))
      ensures Strayed(old(St()), St(), old(Fails(p) && ind[d].Empty?))
      ensures err == EOK ==> |free| == |old(free)| - (if old(At(St(), p)) == 0 then 1 else 0)
    {
      hide IsPath, Looked, Total, Used, Weight, CellsOk, OwnedOk, DeadOk, DiskOk, RootOk, Strayed, Entry, SlotOk;
      ghost var s := St();
      NodeAlive(a, s, p);
      Prepare(d, p);
      ghost var t := St();
      CellShows(a, t, c, p);
      NodeAlive(a, t, p);
      var v := Value(c);
      if v == 0 {
        err := CreateInd(c, d, p);
      } else {
        LoadKeeps(a, t, d, p);
        LoadLooked(a, t, d, p);
        ind, own := ind[d := Holds(v, disk[v])], own[d := p];
        err := EOK;
      }
      LookedTrans(a, s, t, St());
      Exchanged(s, St(), d, old(Fails(p) && ind[d].Empty?));
    }

    /** The slots part of _ext2_obj_sync: afterwards the disk alone holds every pointer. */
    method SyncSlots()
      requires Ok(a, St())
      modifies this`disk, this`strays
      ensures St() == WrittenBack(old(St())) && Ok(a, St()) && Looked(a, old(St()), St())
      ensures strays > old(strays) <==> old(AnyLoose(St()))
      ensures DiskHolds(a, St())
    {
      hide DiskHolds, Looked;
      ghost var s := St();
      WriteBackKeeps(a, s);
      WrittenBackHolds(a, s);
      Evict(0);
      ghost var t := St();
      Evict(1);
      LookedTrans(a, s, t, St());
      t := St();
      Evict(2);
      LookedTrans(a, s, t, St());
      assert forall p :: At(St(), p) == At(s, p);
    }

    method CreateInd(c: Cell, d: nat, ghost p: Path) returns (err: int)
      requires Ok(a, St()) && IsNode(a, p) && d == Level(p) && CellFor(c, p) && ParentReady(St(), p) && At(St(), p) == 0
      requires Clean(St(), d)
      modifies this`free, this`block, this`blocks, this`ind, this`own, this`ptr
      ensures err == EOK || err == -ENOSPC
      ensures Ok(a, St()) && Looked(a, old(St()), St()) && OthersStay(old(St()), St(), d) &&
              Excess() == old(Excess()) && Total(free, ptr) == old(Total(free, ptr))
      ensures forall q :: q != p ==> At(St(), q) == old(At(St(), q))
      ensures err == EOK ==> At(St(), p) != 0 && own[d] == p && Held(St(), d, At(St(), p))
      ensures err != EOK <==> old(free) == {}
      ensures err != EOK ==> St() == old(St())
      ensures err == EOK ==> |free| == |old(free)| - 1
    {
      hide IsPath, Looked, Total, Used, Weight, CellsOk, OwnedOk, DeadOk, DiskOk, RootOk;
      ghost var s := St();
      LookedSame(a, s);
      CellShows(a, s, c, p);
      var n;
      err, n := CreateOne();
      if err < 0 {
        return;
      }
      CreateKeeps(a, s, d, p, n);
      CreateLooked(a, s, d, p, n);
      CreateShows(a, s, d, p, n);
      TakeTotal(s.free, s.ptr, p, n);
      UsedNew(s, p, n);
      WeightMore(sectors, Used(s.ptr));
      hide *;
      Install(c, d, n, p);
    }

    /** The new block, empty, is in the slot, and the pointer to it is set. */
    method Install(c: Cell, d: nat, n: nat, ghost p: Path)
      requires CellFor(c, p) && CellIndexed(a, St(), p) && d == Level(p) < 3 && CellIn(c, block, ind) && n !in free
      modifies this`block, this`blocks, this`ind, this`own, this`ptr
      ensures blocks == old(blocks) + sectors && ptr == old(ptr)[p := n]
      ensures CellIndexed(a, old(St()), p) && St() == Created(a, old(St()), d, p, n)
    {
      blocks := blocks + sectors;
      ind, own := ind[d := Holds(n, seq(a, i => 0))], own[d := p];
      SetCell(c, n);
      ptr := ptr[p := n];
    }

    /**
     * ext2_block_ind: the indirect blocks on the way to a data block, from the inode down, each in its
     * slot.  `found` tells of each level whether there is one; below a missing one nothing is looked for.
     */
    method Ind(depth: nat, offs: array<nat>, alloc: bool, ghost p: Path) returns (err: int, found: seq<bool>)
      requires Ok(a, St()) && IsLeaf(a, p) && OffsFor(offs, depth, p)
      modifies this
      ensures err == EOK || err == -ENOSPC
      ensures Ok(a, St()) && Looked(a, old(St()), St()) && Excess() == old(Excess()) &&
              Total(free, ptr) == old(Total(free, ptr))
      ensures !alloc ==> err == EOK && ptr == old(ptr) && free == old(free) && blocks == old(blocks)
      ensures err == EOK ==> |found| == 3 && forall k :: 0 <= k < 3 ==> FoundOk(St(), p, k, found[k])
      ensures err == EOK && alloc ==> forall k :: 0 <= k < |p| - 1 ==> found[k]
      ensures forall q :: At(St(), q) != old(At(St(), q)) ==> OnWay(q, p)
      ensures (forall m :: 1 <= m < |p| ==> old(At(St(), p[..m])) != 0) ==>
              err == EOK && ptr == old(ptr) && free == old(free) && blocks == old(blocks)
      ensures err != EOK <==> alloc && |old(free)| < old(Missing(St(), p, 1))
      ensures err == EOK && alloc ==> |free| == |old(free)| - old(Missing(St(), p, 1))
      ensures Strayed(old(St()), St(), alloc && old(StrandsFrom(St(), p, 1, |free|)))
    {
      hide IsPath, Looked, Total, Used, Weight, Ok, FoundOk, Height, Strayed, Missing, StrandsFrom, WayPassed,
           LevelPassed;
      ghost var s := St();
      LookedSame(a, s);
      NoSuchLevels(s, p);
      WayBegun(s, p, alloc);
      found := [false, false, false];
      err := EOK;
      var one := true;
      ghost var t := s;
      if depth == 4 {
        LeafTop(a, p);
        err, one := IndStep(InInode(offs[3]), 2, alloc, p);
        WayStep(s, t, St(), p, 2, alloc, err == EOK);
        if err < 0 {
          return;
        }
        found := found[2 := one];
        if !one {
          NoneBelow(a, St(), p, 2);
          WayQuit(s, St(), p, 2);
          return;
        }
        t := St();
        err, one := IndStep(InBlock(2, offs[2]), 1, alloc, p);
        LookedTrans(a, s, t, St());
        WayStep(s, t, St(), p, 1, alloc, err == EOK);
        if err < 0 {
          return;
        }
        found := found[1 := one];
      } else if depth == 3 {
        LeafTop(a, p);
        err, one := IndStep(InInode(offs[2]), 1, alloc, p);
        NoSuchLevels(St(), p);
        WayStep(s, t, St(), p, 1, alloc, err == EOK);
        if err < 0 {
          return;
        }
        found := found[1 := one];
      }
      if depth >= 3 {
        if !one {
          NoneBelow(a, St(), p, 1);
          WayQuit(s, St(), p, |p| - 1);
          return;
        }
        t := St();
        err, one := IndStep(InBlock(1, offs[1]), 0, alloc, p);
        LookedTrans(a, s, t, St());
        found := found[0 := one];
        WayStep(s, t, St(), p, 0, alloc, err == EOK);
      } else if depth == 2 {
        LeafTop(a, p);
        err, one := IndStep(InInode(offs[1]), 0, alloc, p);
        NoSuchLevels(St(), p);
        found := found[0 := one];
        WayStep(s, t, St(), p, 0, alloc, err == EOK);
      }
      if err == EOK {
        WayDone(s, St(), p, alloc);
      }
    }

    /** One level of Ind. */
    method IndStep(c: Cell, k: nat, alloc: bool, ghost p: Path) returns (err: int, one: bool)
      requires Ok(a, St()) && IsLeaf(a, p) && k + 2 <= |p| <= 4
      requires c == if |p| == k + 2 then InInode(p[0]) else InBlock(k + 1, p[|p| - 2 - k])
      requires |p| > k + 2 ==> FoundOk(St(), p, k + 1, true)
      modifies this
      ensures err == EOK || err == -ENOSPC
      ensures Ok(a, St()) && Looked(a, old(St()), St()) && Excess() == old(Excess()) &&
              Total(free, ptr) == old(Total(free, ptr))
      ensures !alloc ==> err == EOK && ptr == old(ptr) && free == old(free) && blocks == old(blocks)
      ensures err == EOK ==> FoundOk(St(), p, k, one) && (alloc ==> one)
      ensures forall j: nat, b :: k < j < 3 && FoundOk(old(St()), p, j, b) ==> FoundOk(St(), p, j, b)
      ensures forall q :: At(St(), q) != old(At(St(), q)) ==> OnWay(q, p)
      ensures old(At(St(), p[..|p| - 1 - k])) != 0 ==>
              err == EOK && ptr == old(ptr) && free == old(free) && blocks == old(blocks)
      ensures alloc ==> LevelPassed(old(St()), St(), p, k, err == EOK)
      ensures !alloc ==> Strayed(old(St()), St(), false)
    {
      hide IsPath, Looked, Total, Used, Weight, Ok, Strayed, Missing, StrandsFrom;
      ghost var s, q := St(), p[..|p| - 1 - k];
      PrefixReady(a, s, c, k, p);
      err, one := ReadInd(c, k + 2, alloc, q);
      forall j: nat, b | k < j < 3 && FoundOk(s, p, j, b) ensures FoundOk(St(), p, j, b) {
        StillFound(s, St(), p, k, j, b);
      }
      LevelDone(s, St(), p, k);
    }

    /** Where the pointer of a data block is kept now, and that it is there. */
    ghost predicate Points(c: Cell, index: nat)
      requires a > 0 && index < Limit(a)
      reads this
    {
      var p := PathOf(a, index);
      IsLeaf(a, p) && CellFor(c, p) && ParentReady(St(), p) && CellIn(c, block, ind) && CellIndexed(a, St(), p) &&
      Value(c) == Entry(St(), p)
    }

    /** ext2_block_get: the place of the pointer of a block; indirect blocks missing on the way are created. */
    method Get(index: nat) returns (err: int, c: Cell)
      requires Ok(a, St()) && a > 0
      modifies this
      ensures err == EOK || err == -ENOSPC || err == -EINVAL
      ensures err == -EINVAL <==> index >= Limit(a)
      ensures Ok(a, St()) && Looked(a, old(St()), St()) && Excess() == old(Excess()) &&
              Total(free, ptr) == old(Total(free, ptr))
      ensures err == EOK ==> Points(c, index)
      ensures err == EOK ==> NodesThere(a, St(), index)
      ensures index < Limit(a) ==> forall q :: At(St(), q) != old(At(St(), q)) ==> OnWay(q, PathOf(a, index))
      ensures index < Limit(a) && old(NodesThere(a, St(), index)) ==>
              err == EOK && ptr == old(ptr) && free == old(free) && blocks == old(blocks)
      ensures err == -ENOSPC <==> index < Limit(a) && |old(free)| < old(Missing(St(), PathOf(a, index), 1))
      ensures err == EOK ==> |free| == |old(free)| - old(Missing(St(), PathOf(a, index), 1))
      ensures Strayed(old(St()), St(), old(Strands(a, St(), index))) && (err == EOK ==> !old(Strands(a, St(), index)))
    {
      hide IsPath, Looked, Total, Used, Weight, Ok;
      var offs := new nat[4];
      var depth := BlockOffs(a, index, offs);
      ghost var s := St();
      LookedSame(a, s);
      if depth < 0 {
        return depth, InInode(0);
      }
      ghost var p := PathOf(a, index);
      PathIsLeaf(a, index);
      if Strands(a, s, index) {
        StrandsFails(s, p, 1, |free|);
      }
      if depth > 1 {
        var found;
        err, found := Ind(depth, offs, true, p);
        if err < 0 {
          return err, InInode(0);
        }
        c := InBlock(0, offs[0]);
        AllFound(a, St(), p, found);
      } else {
        err, c := EOK, InInode(offs[0]);
      }
      LeafTop(a, p);
      CellShows(a, St(), c, p);
    }

    /** *bno = v for the pointer just looked up. */
    method SetPointer(c: Cell, v: nat, ghost index: nat)
      requires Ok(a, St()) && a > 0 && index < Limit(a) && Points(c, index)
      requires v == 0 || (Fresh(a, St(), v) && v !in free)
      modifies this`block, this`ind, this`ptr, this`dead
      ensures Ok(a, St()) && St() == Stored(a, old(St()), PathOf(a, index), v)
    {
      hide IsPath, Ok;
      ghost var s, p := St(), PathOf(a, index);
      StoreKeeps(a, s, p, v);
      SetCell(c, v);
      ptr, dead := ptr[p := v], dead - {p};
      assert St() == Stored(a, s, p, v);
    }

    /** A free block is marked as used and the pointer just looked up is set to it. */
    method TakeFree(c: Cell, b: nat, ghost index: nat)
      requires Ok(a, St()) && a > 0 && index < Limit(a) && Points(c, index) && b in free
      modifies this`free, this`block, this`ind, this`ptr, this`dead
      ensures Ok(a, St()) && b > 0
      ensures CellIndexed(a, old(St()), PathOf(a, index))
      ensures St() == Stored(a, old(St()), PathOf(a, index), b).(free := old(free) - {b})
    {
      hide IsPath, Ok;
      ghost var s, p := St(), PathOf(a, index);
      Taken(a, s, b);
      free := free - {b};
      FreeOnly(a, s, St(), p);
      SetPointer(c, b, index);
    }
  }

  // ---------------------------------------------------------------------------------------
  // Any history of lookups and updates

  datatype Op = Lookup(index: nat) | Assign(index: nat)

  /** An error code, and the number of the block stored at that index after the operation. */
  datatype Result = Result(err: int, bno: nat)

  /** What the pointer of block k is after a history: the last block given to it, or what it was before. */
  ghost function Expected(ops: seq<Op>, res: seq<Result>, k: nat, was: nat): nat
    requires |ops| == |res|
  {
    if ops == [] then was
    else
      var n := |ops| - 1;
      if ops[n] == Assign(k) && res[n].err == EOK then res[n].bno else Expected(ops[..n], res[..n], k, was)
  }

  ghost predicate Tracks(a: nat, s0: State, s: State, ops: seq<Op>, res: seq<Result>)
    requires a > 0
  {
    |ops| == |res| &&
    forall k: nat :: k < Limit(a) ==> At(s, PathOf(a, k)) == Expected(ops, res, k, At(s0, PathOf(a, k)))
  }

  /** An operation that sets the pointer at `index`, or none. */
  lemma TracksOne(a: nat, s0: State, s: State, t: State, ops: seq<Op>, res: seq<Result>, op: Op, r: Result)
    requires a > 0 && Tracks(a, s0, s, ops, res)
    requires forall k: nat :: k < Limit(a) ==>
             At(t, PathOf(a, k)) == if op == Assign(k) && r.err == EOK then r.bno else At(s, PathOf(a, k))
    ensures Tracks(a, s0, t, ops + [op], res + [r])
  {
    hide PathOf, Limit, At;
    assert (ops + [op])[..|ops|] == ops && (res + [r])[..|ops|] == res;
  }

  lemma LookedLeaves(a: nat, s: State, t: State)
    requires a > 0 && Looked(a, s, t)
    ensures t.dead == s.dead && forall k: nat :: k < Limit(a) ==> At(t, PathOf(a, k)) == At(s, PathOf(a, k))
  {
    hide PathOf, Limit, At, IsLeaf;
    forall k: nat | k < Limit(a) ensures At(t, PathOf(a, k)) == At(s, PathOf(a, k)) {
      PathIsLeaf(a, k);
    }
  }

  lemma StoredLeaves(a: nat, s: State, index: nat, b: nat, free: set<nat>)
    requires a > 0 && index < Limit(a) && CellIndexed(a, s, PathOf(a, index))
    ensures var t := Stored(a, s, PathOf(a, index), b).(free := free);
            forall k: nat :: k < Limit(a) ==> At(t, PathOf(a, k)) == if k == index then b else At(s, PathOf(a, k))
  {
    hide PathOf, Limit, CellIndexed, PutCell;
    var t := Stored(a, s, PathOf(a, index), b).(free := free);
    forall k: nat | k < Limit(a) ensures At(t, PathOf(a, k)) == if k == index then b else At(s, PathOf(a, k)) {
      if k != index && PathOf(a, k) == PathOf(a, index) {
        PathInjective(a, k, index);
      }
    }
  }

  /**
   * What an operation does to the state: only an update changes a pointer of a data block, refused exactly
   * for want of free blocks, and it leaves a buffer without a block exactly where it can be seen to before.
   */
  ghost predicate Applied(a: nat, s: State, op: Op, r: Result, t: State)
    requires a > 0
  {
    && (r.err == EOK || r.err == -ENOSPC || r.err == -EINVAL)
    && (r.err == -EINVAL <==> op.index >= Limit(a))
    && (op.index < Limit(a) ==>
          && (r.err == -ENOSPC <==> |s.free| < Missing(s, PathOf(a, op.index), 1) + if op.Assign? then 1 else 0)
          && (op.Lookup? && r.err == EOK ==> r.bno == At(s, PathOf(a, op.index))))
    && (op.Assign? && r.err == EOK ==> r.bno in s.free)
    && (forall k: nat :: k < Limit(a) ==>
          At(t, PathOf(a, k)) == if op == Assign(k) && r.err == EOK then r.bno else At(s, PathOf(a, k)))
    && Wrote(a, s, t) && Strayed(s, t, Strands(a, s, op.index))
  }

  lemma StoredWrote(a: nat, s: State, p: Path, v: nat, free: set<nat>)
    requires CellIndexed(a, s, p) && IsLeaf(a, p) && free <= s.free
    ensures Wrote(a, s, Stored(a, s, p, v).(free := free)) && Strayed(s, Stored(a, s, p, v).(free := free), false)
  {
    var t := Stored(a, s, p, v).(free := free);
    assert forall q :: At(t, q) == if q == p then v else At(s, q);
    assert forall q :: IsNode(a, q) ==> q != p;
  }

  /** One lookup, or a lookup and the update of the pointer found. */
  method Apply(o: Ext2Object, op: Op) returns (r: Result)
    requires o.a > 0 && Ok(o.a, o.St()) && o.dead == map[]
    modifies o
    ensures Ok(o.a, o.St()) && o.dead == map[] && Applied(o.a, old(o.St()), op, r, o.St())
  {
    hide Ok, Looked, PathOf, Limit, IsPath, CellIndexed, Total, Used, Weight, Wrote, Strayed, Missing, StrandsFrom,
         Strands;
    ghost var s := o.St();
    var err, c := o.Get(op.index);
    LookedLeaves(o.a, s, o.St());
    LookedFree(o.a, s, o.St());
    if err != EOK {
      return Result(err, 0);
    }
    if op.Lookup? {
      return Result(EOK, o.Value(c));
    }
    if o.free == {} {
      return Result(-ENOSPC, 0);
    }
    var b :| b in o.free;
    ghost var t := o.St();
    o.TakeFree(c, b, op.index);
    StoredLeaves(o.a, t, op.index, b, t.free - {b});
    StoredWrote(o.a, t, PathOf(o.a, op.index), b, t.free - {b});
    WroteTrans(o.a, s, t, o.St());
    StrayedTrans(s, t, o.St(), false, false);
    r := Result(EOK, b);
  }

  lemma LookedFree(a: nat, s: State, t: State)
    requires Looked(a, s, t)
    ensures t.free <= s.free && Wrote(a, s, t)
  {
  }

  /** The pointer of block k, walked to from the inode over the device. */
  ghost function Uncached(a: nat, disk: map<nat, seq<nat>>, root: seq<nat>, k: nat): nat
    requires a > 0 && k < Limit(a)
  {
    PathIsLeaf(a, k);
    Walk(disk, root, PathOf(a, k))
  }

  /** States and results of a run of operations. */
  ghost predicate IsRun(a: nat, ops: seq<Op>, res: seq<Result>, trace: seq<State>)
    requires a > 0
  {
    |res| == |ops| && |trace| == |ops| + 1 &&
    forall i :: 0 <= i < |ops| ==> Applied(a, trace[i], ops[i], res[i], trace[i + 1])
  }

  /** Some operation of the run leaves a slot with a buffer and no block. */
  ghost predicate AnyStrands(a: nat, ops: seq<Op>, trace: seq<State>)
    requires |trace| == |ops| + 1
  {
    exists i :: 0 <= i < |ops| && Strands(a, trace[i], ops[i].index)
  }

  /**
   * Over a run only indirect blocks are written, and block 0 exactly if a creation failed for a
   * slot without a buffer.
   */
  lemma {:induction false} RunStrays(a: nat, ops: seq<Op>, res: seq<Result>, trace: seq<State>)
    requires a > 0 && IsRun(a, ops, res, trace)
    ensures Wrote(a, trace[0], trace[|ops|]) && Strayed(trace[0], trace[|ops|], AnyStrands(a, ops, trace))
  {
    hide Wrote, Strayed, Applied, Strands;
    var n := |ops| - 1;
    if n < 0 {
      SameWrote(a, trace[0]);
    } else {
      assert Applied(a, trace[n], ops[n], res[n], trace[n + 1]);
      RunStrays(a, ops[..n], res[..n], trace[..n + 1]);
      AppliedWrote(a, trace[n], ops[n], res[n], trace[n + 1]);
      WroteTrans(a, trace[0], trace[n], trace[n + 1]);
      var before, last := AnyStrands(a, ops[..n], trace[..n + 1]), Strands(a, trace[n], ops[n].index);
      StrayedTrans(trace[0], trace[n], trace[n + 1], before, last);
      MoreStrands(a, ops, trace);
    }
  }

  lemma MoreStrands(a: nat, ops: seq<Op>, trace: seq<State>)
    requires |trace| == |ops| + 1 && ops != []
    ensures var n := |ops| - 1;
            AnyStrands(a, ops, trace) <==> AnyStrands(a, ops[..n], trace[..n + 1]) || Strands(a, trace[n], ops[n].index)
  {
    hide Strands;
    var n := |ops| - 1;
    if i :| 0 <= i < |ops[..n]| && Strands(a, trace[..n + 1][i], ops[..n][i].index) {
      assert Strands(a, trace[i], ops[i].index);
    }
    if i :| 0 <= i < |ops| && Strands(a, trace[i], ops[i].index) {
      assert i < n ==> Strands(a, trace[..n + 1][i], ops[..n][i].index);
    }
  }

  lemma SameWrote(a: nat, s: State)
    ensures Wrote(a, s, s) && Strayed(s, s, false)
  {
  }

  lemma AppliedWrote(a: nat, s: State, op: Op, r: Result, t: State)
    requires a > 0 && Applied(a, s, op, r, t)
    ensures Wrote(a, s, t) && Strayed(s, t, Strands(a, s, op.index))
    ensures forall k: nat :: k < Limit(a) ==>
              At(t, PathOf(a, k)) == if op == Assign(k) && r.err == EOK then r.bno else At(s, PathOf(a, k))
    ensures r.err == -EINVAL <==> op.index >= Limit(a)
    ensures r.err == EOK && op.Lookup? ==> op.index < Limit(a) && r.bno == At(s, PathOf(a, op.index))
  {
  }

  /**
   * After any history, and the slots written back, a walk that knows no cache finds every pointer where it was
   * last put.  Nothing was written but indirect blocks of the file, which were so before or were free, and block 0:
   * that one exactly if a creation failed for a slot without a buffer, or a slot was left so before.
   */
  method History(o: Ext2Object, ops: seq<Op>) returns (res: seq<Result>, ghost trace: seq<State>)
    requires o.a > 0 && Ok(o.a, o.St()) && o.dead == map[]
    modifies o
    ensures IsRun(o.a, ops, res, trace) && trace[0] == old(o.St())
    ensures forall i :: 0 <= i < |ops| ==> (res[i].err == -EINVAL <==> ops[i].index >= Limit(o.a))
    ensures forall i :: 0 <= i < |ops| && ops[i].Lookup? && res[i].err == EOK ==>
              ops[i].index < Limit(o.a) &&
              res[i].bno == Expected(ops[..i], res[..i], ops[i].index, old(At(o.St(), PathOf(o.a, ops[i].index))))
    ensures forall k: nat :: k < Limit(o.a) ==>
              Uncached(o.a, o.disk, o.block, k) == Expected(ops, res, k, old(At(o.St(), PathOf(o.a, k))))
    ensures Wrote(o.a, old(o.St()), o.St())
    ensures o.strays > old(o.strays) <==> old(AnyLoose(o.St())) || AnyStrands(o.a, ops, trace)
  {
    hide Ok, PathOf, Limit, Walk, At, Expected, Applied, Wrote, Strayed, AnyStrands, AnyLoose, Looked;
    ghost var s0 := o.St();
    res, trace := [], [s0];
    TracksNone(o.a, s0);
    while |res| < |ops|
      invariant |res| <= |ops| && Ok(o.a, o.St()) && o.dead == map[] && Tracks(o.a, s0, o.St(), ops[..|res|], res)
      invariant IsRun(o.a, ops[..|res|], res, trace) && trace[0] == s0 && trace[|res|] == o.St()
      invariant forall i :: 0 <= i < |res| ==> (res[i].err == -EINVAL <==> ops[i].index >= Limit(o.a))
      invariant forall i :: 0 <= i < |res| && ops[i].Lookup? && res[i].err == EOK ==>
                  ops[i].index < Limit(o.a) &&
                  res[i].bno == Expected(ops[..i], res[..i], ops[i].index, At(s0, PathOf(o.a, ops[i].index)))
    {
      var n := |res|;
      ghost var s, before := o.St(), res;
      var r := Apply(o, ops[n]);
      AppliedWrote(o.a, s, ops[n], r, o.St());
      TracksOne(o.a, s0, s, o.St(), ops[..n], res, ops[n], r);
      assert ops[..n + 1] == ops[..n] + [ops[n]];
      res, trace := res + [r], trace + [o.St()];
      assert forall i :: 0 <= i <= n ==> res[..i] == before[..i];
    }
    ghost var s := o.St();
    assert ops[..|res|] == ops;
    RunStrays(o.a, ops, res, trace);
    o.SyncSlots();
    SyncStrays(o.a, s0, s, o.St(), AnyStrands(o.a, ops, trace));
    forall k: nat | k < Limit(o.a)
      ensures Uncached(o.a, o.disk, o.block, k) == Expected(ops, res, k, At(s0, PathOf(o.a, k)))
    {
      PathIsLeaf(o.a, k);
      BackSame(o.a, s, PathOf(o.a, k));
    }
  }

  lemma SyncStrays(a: nat, s0: State, s: State, t: State, stranded: bool)
    requires Wrote(a, s0, s) && Strayed(s0, s, stranded) && Looked(a, s, t) && (t.strays > s.strays <==> AnyLoose(s))
    ensures Wrote(a, s0, t) && (t.strays > s0.strays <==> AnyLoose(s0) || stranded)
  {
    WroteTrans(a, s0, s, t);
  }

  /** A file without blocks on a device that has none to give: there is block 0, and it is not free. */
  ghost function FullDevice(a: nat, first: seq<nat>): State {
    State(map[0 := first], seq(ROOT_SLOTS, i => 0), [Empty, Empty, Empty], [[], [], []], map[], {}, map[], 0)
  }

  /**
   * The lookup of the first block behind an indirect one leaves a buffer without a block there, and
   * writing that back replaces block 0.
   */
  lemma FullDeviceStrands(a: nat, first: seq<nat>, junk: seq<nat>)
    requires a > 0 && |first| == a == |junk|
    ensures var s := FullDevice(a, first);
            && Ok(a, s) && !AnyLoose(s) && Strands(a, s, DIRECT_BLOCKS) && Missing(s, PathOf(a, DIRECT_BLOCKS), 1) == 1
            && WrittenBack(Allocated(s, 0, junk)).disk[0] == junk
  {
    var s := FullDevice(a, first);
    var p := PathOf(a, DIRECT_BLOCKS);
    assert p == [SINGLE_INDIRECT_BLOCK, 0];
    assert At(s, p[..1]) == 0 && |s.free| == 0;
  }

  /** So one lookup, as of a read, and a write-back are enough for memory as it comes to end up in block 0. */
  method FullDeviceStrays(a: nat, first: seq<nat>) returns (err: int, ghost strays: nat)
    requires a > 0 && |first| == a
    ensures err == -ENOSPC && strays > 0
  {
    FullDeviceStrands(a, first, first);
    hide Walk, Wrote, Ok, Missing, Strands, PathOf, Limit;
    var o := new Ext2Object(a, 2, map[0 := first], {}, seq(ROOT_SLOTS, i => 0), 0, map[]);
    assert o.St() == FullDevice(a, first);
    var c;
    err, c := o.Get(DIRECT_BLOCKS);
    o.SyncSlots();
    strays := o.strays;
  }

  lemma TracksNone(a: nat, s: State)
    requires a > 0
    ensures Tracks(a, s, s, [], [])
  {
  }

  lemma BackSame(a: nat, s: State, p: Path)
    requires Ok(a, s)
    ensures |s.slots| == 3 && At(WrittenBack(s), p) == At(s, p)
  {
  }
}
