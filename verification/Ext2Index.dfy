/**
 * Block indexes of an ext2 file (ext2_block_offs of ext2/block.c).
 *
 * A file has 12 direct blocks, then those reached through one, two and three levels of indirect
 * blocks of `a` pointers each.  A path names a pointer from the inode down: the slot in the inode
 * first, then the entry in each indirect block.  Paths of data blocks and indexes below
 * 12 + a + a^2 + a^3 correspond one to one.
 */
module Ext2Index {
  const DIRECT_BLOCKS: nat := 12
  const SINGLE_INDIRECT_BLOCK: nat := 12
  const DOUBLE_INDIRECT_BLOCK: nat := 13
  const TRIPPLE_INDIRECT_BLOCK: nat := 14
  const ROOT_SLOTS: nat := 15
  const EINVAL: int := 22

  type Path = seq<nat>

  /** A pointer of the tree: in the inode, or in an indirect block on the way to the data. */
  predicate IsPath(a: nat, p: Path) {
    0 < |p| && p[0] < ROOT_SLOTS && |p| <= Height(p[0]) + 1 && forall i :: 1 <= i < |p| ==> p[i] < a
  }

  /** How many levels of indirect blocks are below a slot of the inode. */
  function Height(slot: nat): nat {
    if slot < DIRECT_BLOCKS then 0 else slot - DIRECT_BLOCKS + 1
  }

  /** The pointer to an indirect block. */
  predicate IsNode(a: nat, p: Path) {
    IsPath(a, p) && |p| <= Height(p[0])
  }

  /** The pointer to a data block. */
  predicate IsLeaf(a: nat, p: Path) {
    IsPath(a, p) && |p| == Height(p[0]) + 1
  }

  // Arithmetic in base a: the shifts and masks of the source, `a` being a power of two

  function Mul(x: nat, a: nat): nat {
    x * a
  }

  function High(x: nat, a: nat): nat
    requires a > 0
  {
    x / a
  }

  function Low(x: nat, a: nat): nat
    requires a > 0
  {
    x % a
  }

  function Pair(high: nat, low: nat, a: nat): nat {
    high * a + low
  }

  /** How many blocks a file can have. */
  function Limit(a: nat): nat {
    DIRECT_BLOCKS + a + Mul(a, a) + Mul(Mul(a, a), a)
  }

  /** Where the pointer of a data block is. */
  function PathOf(a: nat, block: nat): (p: Path)
    requires a > 0 && block < Limit(a)
  {
    if block < DIRECT_BLOCKS then [block]
    else if block - DIRECT_BLOCKS < a then [SINGLE_INDIRECT_BLOCK, block - DIRECT_BLOCKS]
    else if block - DIRECT_BLOCKS - a < Mul(a, a) then
      var x := block - DIRECT_BLOCKS - a;
      [DOUBLE_INDIRECT_BLOCK, High(x, a), Low(x, a)]
    else
      var x := block - DIRECT_BLOCKS - a - Mul(a, a);
      [TRIPPLE_INDIRECT_BLOCK, High(High(x, a), a), Low(High(x, a), a), Low(x, a)]
  }

  /** Which block a pointer is for, counted up from 0. */
  function IndexOf(a: nat, p: Path): nat
    requires IsLeaf(a, p)
  {
    if |p| == 1 then p[0]
    else if |p| == 2 then DIRECT_BLOCKS + p[1]
    else if |p| == 3 then DIRECT_BLOCKS + a + Pair(p[1], p[2], a)
    else DIRECT_BLOCKS + a + Mul(a, a) + Pair(Pair(p[1], p[2], a), p[3], a)
  }

  lemma Times(x: nat, y: nat, z: nat)
    ensures (x + y) * z == x * z + y * z
    ensures x <= y ==> x * z <= y * z
  {
  }

  lemma Split(x: nat, a: nat)
    requires a > 0
    ensures Pair(High(x, a), Low(x, a), a) == x && Low(x, a) < a
  {
  }

  lemma Join(high: nat, low: nat, a: nat)
    requires low < a
    ensures High(Pair(high, low, a), a) == high && Low(Pair(high, low, a), a) == low
  {
    var x := high * a + low;
    var k := x / a;
    if k < high {
      Times(k + 1, high, a);
      assert false;
    }
    if high < k {
      Times(high + 1, k, a);
      assert false;
    }
  }

  lemma Within(x: nat, a: nat, n: nat)
    requires a > 0
    ensures x < Mul(n, a) <==> High(x, a) < n
  {
    if x / a < n {
      Times(x / a + 1, n, a);
    } else {
      Times(n, x / a, a);
    }
  }

  lemma PathIsLeaf(a: nat, block: nat)
    requires a > 0 && block < Limit(a)
    ensures IsLeaf(a, PathOf(a, block))
  {
    hide Mul, High, Low;
    if block - DIRECT_BLOCKS - a >= Mul(a, a) {
      var x := block - DIRECT_BLOCKS - a - Mul(a, a);
      Within(x, a, Mul(a, a));
      Within(High(x, a), a, a);
      Split(x, a);
      Split(High(x, a), a);
    } else if block - DIRECT_BLOCKS >= a {
      Within(block - DIRECT_BLOCKS - a, a, a);
      Split(block - DIRECT_BLOCKS - a, a);
    }
  }

  /** Every index comes back from its path. */
  lemma IndexOfPath(a: nat, block: nat)
    requires a > 0 && block < Limit(a)
    ensures IsLeaf(a, PathOf(a, block)) && IndexOf(a, PathOf(a, block)) == block
  {
    hide Mul, High, Low, Pair;
    PathIsLeaf(a, block);
    if block - DIRECT_BLOCKS - a >= Mul(a, a) {
      var x := block - DIRECT_BLOCKS - a - Mul(a, a);
      Split(x, a);
      Split(High(x, a), a);
    } else if block - DIRECT_BLOCKS >= a {
      Split(block - DIRECT_BLOCKS - a, a);
    }
  }

  /** Every path comes back from its index. */
  lemma PathOfIndex(a: nat, p: Path)
    requires a > 0 && IsLeaf(a, p)
    ensures IndexOf(a, p) < Limit(a) && PathOf(a, IndexOf(a, p)) == p
  {
    hide Mul, High, Low, Pair;
    if |p| == 3 {
      Join(p[1], p[2], a);
      Within(Pair(p[1], p[2], a), a, a);
    } else if |p| == 4 {
      var y := Pair(p[1], p[2], a);
      Join(p[1], p[2], a);
      Within(y, a, a);
      Join(y, p[3], a);
      Within(Pair(y, p[3], a), a, Mul(a, a));
    }
  }

  lemma PathInjective(a: nat, x: nat, y: nat)
    requires a > 0 && x < Limit(a) && y < Limit(a) && PathOf(a, x) == PathOf(a, y)
    ensures x == y
  {
    IndexOfPath(a, x);
    IndexOfPath(a, y);
  }

  /**
   * ext2_block_offs: fills in the entries from the data block up and returns how many there are.
   * `a` is 256 << logBlocksz, so the shifts by 8 + logBlocksz divide by it and the masks are remainders.
   */
  method BlockOffs(a: nat, index: nat, offs: array<nat>) returns (depth: int)
    requires a > 0 && offs.Length == 4
    modifies offs
    ensures depth < 0 <==> index >= Limit(a)
    ensures depth < 0 ==> depth == -EINVAL
    ensures index < Limit(a) ==>
              var p := PathOf(a, index);
              depth == |p| <= 4 && forall k :: 0 <= k < |p| ==> offs[k] == p[|p| - 1 - k]
  {
    hide Mul, High, Low;
    var block := index;
    if block < DIRECT_BLOCKS {
      offs[0] := block;
      return 1;
    }
    block := block - DIRECT_BLOCKS;
    if block < a {
      offs[0], offs[1] := block, SINGLE_INDIRECT_BLOCK;
      return 2;
    }
    block := block - a;
    if block < Mul(a, a) {
      offs[0], offs[1], offs[2] := Low(block, a), High(block, a), DOUBLE_INDIRECT_BLOCK;
      return 3;
    }
    block := block - Mul(a, a);
    Within(block, a, Mul(a, a));
    Within(High(block, a), a, a);
    if High(High(block, a), a) < a {
      offs[0], offs[1], offs[2] := Low(block, a), Low(High(block, a), a), High(High(block, a), a);
      offs[3] := TRIPPLE_INDIRECT_BLOCK;
      return 4;
    }
    return -EINVAL;
  }
}
