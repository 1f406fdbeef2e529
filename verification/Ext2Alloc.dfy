/**
 * The block bitmaps of ext2 (the allocator of ext2/block.c, the bit operations of ext2/ext2.h).
 *
 * Each block group has a bitmap with a bit for every block, set if it is in use, and a count of
 * the free ones; the superblock has the count of all groups.  The results: the counts always are
 * the zeros of the bitmaps, a single block is refused only if every group is full, and just when
 * the search for several blocks gives up although a block is free.
 */
module Ext2Alloc {
  import opened Ext2Index

  const ENOSPC: int := 28
  const EOK: int := 0
  const BITS_IN_ELEM: nat := 32

  // ---------------------------------------------------------------------------------------
  // Bits

  /** How many of the first n bits are zero. */
  ghost function Zeros(bits: seq<bool>, n: nat): (r: nat)
    requires n <= |bits|
  {
    if n == 0 then 0 else Zeros(bits, n - 1) + if bits[n - 1] then 0 else 1
  }

  lemma {:induction false} ZerosFlip(bits: seq<bool>, n: nat, i: nat)
    requires i < n <= |bits|
    ensures Zeros(bits[i := !bits[i]], n) == Zeros(bits, n) + if bits[i] then 1 else -1
  {
    if i == n - 1 {
      ZerosSame(bits, bits[i := !bits[i]], n - 1);
    } else {
      ZerosFlip(bits, n - 1, i);
    }
  }

  lemma {:induction false} ZerosSame(bits: seq<bool>, other: seq<bool>, n: nat)
    requires n <= |bits| && n <= |other| && forall i :: 0 <= i < n ==> bits[i] == other[i]
    ensures Zeros(bits, n) == Zeros(other, n)
  {
    if n > 0 {
      ZerosSame(bits, other, n - 1);
    }
  }

  lemma {:induction false} NoZeros(bits: seq<bool>, n: nat)
    requires n <= |bits|
    ensures Zeros(bits, n) == 0 <==> Full(bits, 0, n)
  {
    if n > 0 {
      NoZeros(bits, n - 1);
    }
  }

  /** No bit from lo up to hi is zero. */
  ghost predicate Full(bits: seq<bool>, lo: nat, hi: nat) {
    hi <= |bits| && forall i :: lo <= i < hi ==> bits[i]
  }

  /** The bits before the word of bit `offs`. */
  function WordStart(offs: nat): nat {
    offs / BITS_IN_ELEM * BITS_IN_ELEM
  }

  /** __builtin_ffsl(~w): the first zero of a word, counted from 1; 0 if there is none. */
  method FirstZero(bits: seq<bool>, base: nat) returns (bit: nat)
    requires base + BITS_IN_ELEM <= |bits|
    ensures bit <= BITS_IN_ELEM
    ensures bit == 0 ==> Full(bits, base, base + BITS_IN_ELEM)
    ensures bit > 0 ==> !bits[base + bit - 1] && Full(bits, base, base + bit - 1)
  {
    bit := 1;
    while bit <= BITS_IN_ELEM
      invariant 1 <= bit <= BITS_IN_ELEM + 1 && Full(bits, base, base + bit - 1)
    {
      if !bits[base + bit - 1] {
        return;
      }
      bit := bit + 1;
    }
    bit := 0;
  }

  /** ext2_findzerobit: the first zero among the first `size` bits from the word of `offs` on, counted from 1. */
  method FindZeroBit(bits: seq<bool>, size: nat, offs: nat) returns (r: nat)
    requires 0 < size && WordStart(size - 1) + BITS_IN_ELEM <= |bits|
    ensures r == 0 ==> Full(bits, WordStart(offs), size)
    ensures r > 0 ==> WordStart(offs) < r <= size && !bits[r - 1] && Full(bits, WordStart(offs), r - 1)
  {
    var len := (size - 1) / BITS_IN_ELEM + 1;
    var i := offs / BITS_IN_ELEM;
    while i < len
      invariant offs / BITS_IN_ELEM <= i && (i <= len || i == offs / BITS_IN_ELEM)
      invariant i <= len ==> Full(bits, WordStart(offs), i * BITS_IN_ELEM)
    {
      var bit := FirstZero(bits, i * BITS_IN_ELEM);
      if bit != 0 {
        r := i * BITS_IN_ELEM + bit;
        if r > size {
          r := 0;
        }
        return;
      }
      i := i + 1;
    }
    r := 0;
  }

  // ---------------------------------------------------------------------------------------
  // Block numbers

  /** The shape of the file system: its first data block, blocks per group, groups and blocks in all. */
  datatype Shape = Shape(fstBlock: nat, groupBlocks: nat, groups: nat, blocks: nat)

  function ToGroup(f: Shape, bno: nat): nat
    requires f.groupBlocks > 0 && bno >= f.fstBlock
  {
    High(bno - f.fstBlock, f.groupBlocks)
  }

  function ToOffs(f: Shape, bno: nat): nat
    requires f.groupBlocks > 0 && bno >= f.fstBlock
  {
    Low(bno - f.fstBlock, f.groupBlocks) + 1
  }

  function FromOffs(f: Shape, group: nat, offs: nat): nat
    requires offs > 0
  {
    f.fstBlock + Pair(group, offs - 1, f.groupBlocks)
  }

  /** Block numbers and places in the bitmaps correspond one to one. */
  lemma BlockPlace(f: Shape, bno: nat)
    requires f.groupBlocks > 0 && bno >= f.fstBlock
    ensures 1 <= ToOffs(f, bno) <= f.groupBlocks && FromOffs(f, ToGroup(f, bno), ToOffs(f, bno)) == bno
  {
    Split(bno - f.fstBlock, f.groupBlocks);
  }

  lemma PlaceBlock(f: Shape, group: nat, offs: nat)
    requires f.groupBlocks > 0 && 1 <= offs <= f.groupBlocks
    ensures FromOffs(f, group, offs) >= f.fstBlock
    ensures ToGroup(f, FromOffs(f, group, offs)) == group && ToOffs(f, FromOffs(f, group, offs)) == offs
  {
    Join(group, offs - 1, f.groupBlocks);
  }

  // ---------------------------------------------------------------------------------------
  // The bitmaps of all groups

  ghost function Sum(s: seq<int>): int {
    if s == [] then 0 else Sum(s[..|s| - 1]) + s[|s| - 1]
  }

  lemma {:induction false} SumChange(s: seq<int>, i: nat, v: int)
    requires i < |s|
    ensures Sum(s[i := v]) == Sum(s) + v - s[i]
  {
    var n := |s| - 1;
    if i == n {
      assert s[i := v][..n] == s[..n];
    } else {
      assert s[i := v][..n] == s[..n][i := v];
      SumChange(s[..n], i, v);
    }
  }

  /** A group's bitmap is whole words, and its count is that of its zeros. */
  ghost predicate GroupOk(f: Shape, bits: seq<bool>, count: int) {
    f.groupBlocks > 0 && WordStart(f.groupBlocks - 1) + BITS_IN_ELEM <= |bits| && f.groupBlocks <= |bits| &&
    count == Zeros(bits, f.groupBlocks)
  }

  ghost predicate BooksOk(f: Shape, bmp: seq<seq<bool>>, counts: seq<int>, total: int) {
    0 < f.groups == |bmp| == |counts| && total == Sum(counts) &&
    forall g :: 0 <= g < f.groups ==> GroupOk(f, bmp[g], counts[g])
  }

  /** A block whose bit is zero. */
  ghost predicate IsFree(f: Shape, bmp: seq<seq<bool>>, b: nat) {
    f.groupBlocks > 0 && b >= f.fstBlock && ToGroup(f, b) < |bmp| && ToOffs(f, b) <= |bmp[ToGroup(f, b)]| &&
    !bmp[ToGroup(f, b)][ToOffs(f, b) - 1]
  }

  lemma NextGroup(g: nat, n: nat)
    requires g < n
    ensures (g + 1) % n == if g + 1 == n then 0 else g + 1
  {
    if g + 1 < n {
      Small(g + 1, n);
    }
  }

  lemma Small(x: nat, n: nat)
    requires x < n
    ensures x % n == x
  {
  }

  /** Going round the groups from `start`, g comes within the first n. */
  ghost predicate Visited(start: nat, n: nat, groups: nat, g: nat) {
    start <= g < start + n || g + groups < start + n
  }

  /** If no group is tried twice, the n-th after `start` is this one. */
  ghost function Nth(start: nat, n: nat, groups: nat): nat
    requires start < groups && n <= groups
  {
    if start + n < groups then start + n else start + n - groups
  }

  /** Bits offs up to offs + k of a group are set; they were zero. */
  ghost predicate Marked(f: Shape, was: seq<seq<bool>>, bmp: seq<seq<bool>>, group: nat, offs: nat, k: nat) {
    |was| == |bmp| && group < |bmp| && 1 <= offs && offs + k - 1 <= f.groupBlocks && |was[group]| == |bmp[group]| &&
    offs + k - 1 <= |bmp[group]| &&
    (forall g :: 0 <= g < |bmp| && g != group ==> bmp[g] == was[g]) &&
    (forall i :: 0 <= i < |bmp[group]| ==> bmp[group][i] == (was[group][i] || offs - 1 <= i < offs + k - 1)) &&
    forall i :: offs - 1 <= i < offs + k - 1 ==> !was[group][i]
  }

  /** Setting bits in a row takes as many blocks in a row. */
  lemma MarkedTakes(f: Shape, was: seq<seq<bool>>, bmp: seq<seq<bool>>, group: nat, offs: nat, k: nat)
    requires f.groupBlocks > 0 && Marked(f, was, bmp, group, offs, k)
    ensures forall b: nat :: IsFree(f, bmp, b) <==>
            IsFree(f, was, b) && !(FromOffs(f, group, offs) <= b < FromOffs(f, group, offs) + k)
    ensures forall b :: FromOffs(f, group, offs) <= b < FromOffs(f, group, offs) + k ==> IsFree(f, was, b)
  {
    hide High, Low, Pair;
    var first := FromOffs(f, group, offs);
    forall b: nat | first <= b < first + k
      ensures b >= f.fstBlock && ToGroup(f, b) == group && ToOffs(f, b) == offs + (b - first)
    {
      RowPlace(f, group, offs, b - first);
    }
    forall b: nat | b >= f.fstBlock && ToGroup(f, b) == group && offs <= ToOffs(f, b) < offs + k
      ensures first <= b < first + k
    {
      BlockPlace(f, b);
      RowPlace(f, group, offs, ToOffs(f, b) - offs);
    }
    forall b: nat ensures IsFree(f, bmp, b) <==> IsFree(f, was, b) && !(first <= b < first + k) {
      if b >= f.fstBlock {
        BlockPlace(f, b);
      }
    }
  }

  lemma RowPlace(f: Shape, group: nat, offs: nat, i: nat)
    requires f.groupBlocks > 0 && 1 <= offs && offs + i <= f.groupBlocks
    ensures FromOffs(f, group, offs) + i == FromOffs(f, group, offs + i) >= f.fstBlock
    ensures ToGroup(f, FromOffs(f, group, offs) + i) == group && ToOffs(f, FromOffs(f, group, offs) + i) == offs + i
  {
    PlaceBlock(f, group, offs + i);
  }

  class Bitmaps {
    const f: Shape
    var bmp: seq<seq<bool>>
    var gdFree: seq<int>
    var sbFree: int

    ghost predicate Valid()
      reads this
    {
      BooksOk(f, bmp, gdFree, sbFree)
    }

    constructor (f: Shape, bmp: seq<seq<bool>>, gdFree: seq<int>, sbFree: int)
      requires BooksOk(f, bmp, gdFree, sbFree)
      ensures Valid() && this.f == f && this.bmp == bmp && this.gdFree == gdFree && this.sbFree == sbFree
    {
      this.f, this.bmp, this.gdFree, this.sbFree := f, bmp, gdFree, sbFree;
    }

    /** A bitmap is written back, and the counts follow it. */
    method Commit(group: nat, bits: seq<bool>, delta: int)
      requires Valid() && group < f.groups && |bits| == |bmp[group]|
      requires Zeros(bits, f.groupBlocks) == Zeros(bmp[group], f.groupBlocks) + delta
      modifies this
      ensures Valid() && bmp == old(bmp)[group := bits] &&
              gdFree == old(gdFree)[group := old(gdFree)[group] + delta] && sbFree == old(sbFree) + delta
    {
      SumChange(gdFree, group, gdFree[group] + delta);
      bmp := bmp[group := bits];
      gdFree := gdFree[group := gdFree[group] + delta];
      sbFree := sbFree + delta;
    }

    /** ext2_block_createone: the first free block of the first group that has one, going round from `start`. */
    method CreateOne(start: nat) returns (err: int, bno: nat)
      requires Valid() && start < f.groups
      modifies this
      ensures err == EOK || err == -ENOSPC
      ensures Valid()
      ensures err == -ENOSPC <==> forall g :: 0 <= g < f.groups ==> Full(old(bmp)[g], 0, f.groupBlocks)
      ensures err == -ENOSPC ==> bmp == old(bmp)
      ensures err == EOK ==> IsFree(f, old(bmp), bno) && sbFree == old(sbFree) - 1
      ensures err == EOK ==> forall b :: IsFree(f, bmp, b) <==> IsFree(f, old(bmp), b) && b != bno
    {
      var group, offset: nat := start, 0;
      ghost var tried := 0;
      while offset == 0
        invariant tried < f.groups && group == Nth(start, tried, f.groups) && group < f.groups && bmp == old(bmp) &&
                  Valid() && sbFree == old(sbFree)
        invariant forall g :: 0 <= g < f.groups && Visited(start, tried, f.groups, g) ==> Full(bmp[g], 0, f.groupBlocks)
        invariant offset > 0 ==> offset <= f.groupBlocks && !bmp[group][offset - 1]
        decreases f.groups - tried, offset == 0
      {
        assert GroupOk(f, bmp[group], gdFree[group]);
        offset := FindZeroBit(bmp[group], f.groupBlocks, 0);
        if offset == 0 {
          NextGroup(group, f.groups);
          group := (group + 1) % f.groups;
          tried := tried + 1;
          if group == start {
            return -ENOSPC, 0;
          }
        }
      }
      assert GroupOk(f, bmp[group], gdFree[group]);
      var bits := bmp[group][offset - 1 := !bmp[group][offset - 1]];
      ZerosFlip(bmp[group], f.groupBlocks, offset - 1);
      Commit(group, bits, -1);
      bno := FromOffs(f, group, offset);
      MarkedTakes(f, old(bmp), bmp, group, offset, 1);
      err := EOK;
    }

    /** A group with a free bit, from the hint on in the group of the hint, from the start in the others. */
    method Search(start: nat, hint: nat) returns (group: nat, offset: nat)
      requires Valid() && start < f.groups && hint <= f.groupBlocks
      ensures offset == 0 <==> GivesUp(f, bmp, start, hint)
      ensures offset > 0 ==> group < f.groups && offset <= f.groupBlocks && !bmp[group][offset - 1]
    {
      group, offset := start, hint;
      ghost var tried := 0;
      while true
        invariant tried < f.groups && group == Nth(start, tried, f.groups) && group < f.groups &&
                  offset == if tried == 0 then hint else 0
        invariant tried > 0 ==> NothingFrom(f, bmp[start], hint)
        invariant forall g :: 0 <= g < f.groups && g != start && Visited(start, tried, f.groups, g) ==>
                  Full(bmp[g], 0, f.groupBlocks)
        decreases f.groups - tried
      {
        assert GroupOk(f, bmp[group], gdFree[group]);
        if offset != 0 && !bmp[group][offset - 1] {
          return;
        }
        offset := FindZeroBit(bmp[group], f.groupBlocks, offset);
        if offset != 0 {
          return;
        }
        NextGroup(group, f.groups);
        group := (group + 1) % f.groups;
        tried := tried + 1;
        if group == start {
          return;
        }
      }
    }

    /** Sets the zero bits from `offset` on, up to n of them. */
    method MarkRun(group: nat, offset: nat, n: nat) returns (bits: seq<bool>, k: nat)
      requires Valid() && group < f.groups && 1 <= offset <= f.groupBlocks && n > 0 && offset <= |bmp[group]| &&
               !bmp[group][offset - 1]
      ensures 1 <= k <= n && offset + k - 1 <= f.groupBlocks <= |bmp[group]| == |bits|
      ensures Marked(f, bmp, bmp[group := bits], group, offset, k)
      ensures Zeros(bits, f.groupBlocks) == Zeros(bmp[group], f.groupBlocks) - k
      ensures k < n && offset + k <= f.groupBlocks ==> bmp[group][offset + k - 1]
    {
      assert GroupOk(f, bmp[group], gdFree[group]);
      bits, k := bmp[group], 0;
      while k < n && offset + k <= f.groupBlocks && !bits[offset + k - 1]
        invariant k <= n && offset + k - 1 <= f.groupBlocks && |bits| == |bmp[group]| && (k == 0 ==> bits == bmp[group])
        invariant Marked(f, bmp, bmp[group := bits], group, offset, k)
        invariant Zeros(bits, f.groupBlocks) == Zeros(bmp[group], f.groupBlocks) - k
      {
        ZerosFlip(bits, f.groupBlocks, offset + k - 1);
        bits := bits[offset + k - 1 := !bits[offset + k - 1]];
        k := k + 1;
      }
      assert bmp[group := bits][group] == bits;
    }

    /** ext2_block_create, the bitmap part: up to n free blocks in a row, as far as the first run found goes. */
    method Create(start: nat, hint: nat, n: nat) returns (err: int, first: nat, k: nat)
      requires Valid() && start < f.groups && hint <= f.groupBlocks && n > 0
      modifies this
      ensures err == EOK || err == -ENOSPC
      ensures Valid() && (err == -ENOSPC <==> GivesUp(f, old(bmp), start, hint))
      ensures err == -ENOSPC ==> bmp == old(bmp)
      ensures err == EOK ==> 1 <= k <= n && sbFree == old(sbFree) - k
      ensures err == EOK ==> forall b :: first <= b < first + k ==> IsFree(f, old(bmp), b)
      ensures err == EOK ==> forall b: nat :: IsFree(f, bmp, b) <==> IsFree(f, old(bmp), b) && !(first <= b < first + k)
      ensures err == EOK && k < n ==>
              !IsFree(f, old(bmp), first + k) || (first + k >= f.fstBlock && ToOffs(f, first + k) == 1)
    {
      var group, offset := Search(start, hint);
      if offset == 0 {
        return -ENOSPC, 0, 0;
      }
      assert GroupOk(f, bmp[group], gdFree[group]);
      var bits;
      bits, k := MarkRun(group, offset, n);
      var taken: int := k;
      Commit(group, bits, -taken);
      first := FromOffs(f, group, offset);
      MarkedTakes(f, old(bmp), bmp, group, offset, k);
      if k < n {
        RunEnd(f, old(bmp), group, offset, k);
      }
      err := EOK;
    }

    /**
     * ext2_block_destroy: n blocks in use become free.  The bitmap of a group is changed in memory and
     * written, with the counts, when the blocks go on in the next group or end.
     */
    method Destroy(bno: nat, n: nat) returns (err: int)
      requires Valid() && f.groupBlocks > 0 && (forall b :: f.fstBlock <= b < f.blocks ==> ToGroup(f, b) < f.groups)
      requires forall b: nat :: bno <= b < bno + n && f.fstBlock <= b < f.blocks ==> !IsFree(f, bmp, b)
      modifies this
      ensures Valid()
      ensures err == EOK <==> n > 0 && f.fstBlock <= bno && bno + n <= f.blocks
      ensures err != EOK ==> err == -EINVAL && bmp == old(bmp) && sbFree == old(sbFree)
      ensures err == EOK ==> sbFree == old(sbFree) + n
      ensures err == EOK ==> forall b: nat :: IsFree(f, bmp, b) <==> IsFree(f, old(bmp), b) || bno <= b < bno + n
    {
      if n == 0 || bno < f.fstBlock || bno >= f.blocks || f.blocks - bno < n {
        return -EINVAL;
      }
      hide ToGroup, ToOffs, BooksOk, Zeros, Freed, IsFree;
      NoneFreed(f, bmp, bno);
      var pgroup := ToGroup(f, bno);
      GroupThere(f, bmp, gdFree, sbFree, pgroup);
      var bits := bmp[pgroup];
      ghost var now := bmp;
      var i, j := 0, 0;
      while i < n
        invariant j <= i <= n && Valid() && pgroup < f.groups == |bmp| && |bits| == |bmp[pgroup]| &&
                  f.groupBlocks <= |bits|
        invariant now == bmp[pgroup := bits] && |now| == |old(bmp)|
        invariant Freed(f, old(bmp), now, bno, i)
        invariant Zeros(bits, f.groupBlocks) == Zeros(bmp[pgroup], f.groupBlocks) + j && sbFree == old(sbFree) + i - j
      {
        var group, offset := ToGroup(f, bno + i), ToOffs(f, bno + i);
        BlockPlace(f, bno + i);
        if group != pgroup {
          Commit(pgroup, bits, j);
          pgroup, j := group, 0;
          GroupThere(f, bmp, gdFree, sbFree, pgroup);
          bits := bmp[group];
          assert bmp[pgroup := bits] == now;
        }
        assert now[pgroup] == bits;
        FreedMore(f, old(bmp), now, bno, i);
        assert now[pgroup := bits[offset - 1 := false]] == bmp[pgroup := bits[offset - 1 := false]];
        ZerosFlip(bits, f.groupBlocks, offset - 1);
        bits := bits[offset - 1 := !bits[offset - 1]];
        now := bmp[pgroup := bits];
        i, j := i + 1, j + 1;
      }
      Commit(pgroup, bits, j);
      AllFreed(f, old(bmp), bmp, bno, n);
      err := EOK;
    }
  }

  /** The first i blocks from bno on have become free, no others. */
  ghost predicate Freed(f: Shape, was: seq<seq<bool>>, now: seq<seq<bool>>, bno: nat, i: nat) {
    forall b: nat :: IsFree(f, now, b) <==> IsFree(f, was, b) || bno <= b < bno + i
  }

  lemma NoneFreed(f: Shape, bmp: seq<seq<bool>>, bno: nat)
    ensures Freed(f, bmp, bmp, bno, 0)
  {
  }

  lemma AllFreed(f: Shape, was: seq<seq<bool>>, now: seq<seq<bool>>, bno: nat, n: nat)
    requires Freed(f, was, now, bno, n)
    ensures forall b: nat :: IsFree(f, now, b) <==> IsFree(f, was, b) || bno <= b < bno + n
  {
  }

  lemma FreedMore(f: Shape, was: seq<seq<bool>>, now: seq<seq<bool>>, bno: nat, i: nat)
    requires f.groupBlocks > 0 && bno >= f.fstBlock && Freed(f, was, now, bno, i) && !IsFree(f, was, bno + i)
    requires var b := bno + i; ToGroup(f, b) < |now| && ToOffs(f, b) <= |now[ToGroup(f, b)]|
    ensures var b := bno + i; now[ToGroup(f, b)][ToOffs(f, b) - 1]
    ensures var b := bno + i; Freed(f, was, now[ToGroup(f, b) := now[ToGroup(f, b)][ToOffs(f, b) - 1 := false]], bno,
            i + 1)
  {
    hide IsFree, ToGroup, ToOffs;
    BlockPlace(f, bno + i);
    FreeOne(f, now, bno + i);
    var g := ToGroup(f, bno + i);
    var next := now[g := now[g][ToOffs(f, bno + i) - 1 := false]];
    forall c: nat ensures IsFree(f, next, c) <==> IsFree(f, was, c) || bno <= c < bno + i + 1 {
      assert IsFree(f, next, c) <==> IsFree(f, now, c) || c == bno + i;
    }
  }

  lemma GroupThere(f: Shape, bmp: seq<seq<bool>>, counts: seq<int>, total: int, g: nat)
    requires BooksOk(f, bmp, counts, total) && g < f.groups
    ensures |bmp| == f.groups && f.groupBlocks <= |bmp[g]|
  {
    assert GroupOk(f, bmp[g], counts[g]);
  }

  /** Toggling the bit of a block in use makes that block free, and no other. */
  lemma FreeOne(f: Shape, bmp: seq<seq<bool>>, b: nat)
    requires f.groupBlocks > 0 && b >= f.fstBlock && ToGroup(f, b) < |bmp| && ToOffs(f, b) <= |bmp[ToGroup(f, b)]| &&
             !IsFree(f, bmp, b)
    ensures bmp[ToGroup(f, b)][ToOffs(f, b) - 1]
    ensures var bits := bmp[ToGroup(f, b)];
            forall c: nat :: IsFree(f, bmp[ToGroup(f, b) := bits[ToOffs(f, b) - 1 := false]], c) <==>
                IsFree(f, bmp, c) || c == b
  {
    hide High, Low, Pair;
    forall c: nat | c >= f.fstBlock && ToGroup(f, c) == ToGroup(f, b) && ToOffs(f, c) == ToOffs(f, b) ensures c == b {
      BlockPlace(f, c);
      BlockPlace(f, b);
    }
  }

  /** Nothing is free at the hint, nor from the start of the hint's word on. */
  ghost predicate NothingFrom(f: Shape, bits: seq<bool>, hint: nat) {
    hint <= |bits| && (hint > 0 ==> bits[hint - 1]) && Full(bits, WordStart(hint), f.groupBlocks)
  }

  /** When the search for a run finds none. */
  ghost predicate GivesUp(f: Shape, bmp: seq<seq<bool>>, start: nat, hint: nat) {
    start < |bmp| && NothingFrom(f, bmp[start], hint) &&
    forall g :: 0 <= g < |bmp| && g != start ==> Full(bmp[g], 0, f.groupBlocks)
  }

  /** It gives up for want of blocks exactly if the words before the hint are full too. */
  lemma GivesUpRightly(f: Shape, bmp: seq<seq<bool>>, start: nat, hint: nat)
    requires GivesUp(f, bmp, start, hint) && hint <= f.groupBlocks
    ensures (forall g :: 0 <= g < |bmp| ==> Full(bmp[g], 0, f.groupBlocks)) <==>
            Full(bmp[start], 0, if WordStart(hint) < f.groupBlocks then WordStart(hint) else f.groupBlocks)
  {
  }

  /** One free block, before the word of the hint, is not found. */
  lemma GivesUpWrongly()
    ensures var f := Shape(0, 64, 1, 64);
            var bits := seq(64, i => i != 0);
            GivesUp(f, [bits], 0, 40) && Zeros(bits, 64) > 0 && IsFree(f, [bits], 0)
  {
    var bits := seq(64, i => i != 0);
    NoZeros(bits, 64);
    assert !bits[0];
    assert WordStart(40) == 32;
    Join(0, 0, 64);
    assert Pair(0, 0, 64) == 0;
  }

  /** A run ends at a block in use, or at the end of its group. */
  lemma RunEnd(f: Shape, bmp: seq<seq<bool>>, group: nat, offs: nat, k: nat)
    requires f.groupBlocks > 0 && group < |bmp| && 1 <= offs && offs + k <= f.groupBlocks + 1 &&
             f.groupBlocks <= |bmp[group]|
    requires offs + k <= f.groupBlocks ==> bmp[group][offs + k - 1]
    ensures var b := FromOffs(f, group, offs) + k; !IsFree(f, bmp, b) || (b >= f.fstBlock && ToOffs(f, b) == 1)
  {
    if offs + k <= f.groupBlocks {
      RowPlace(f, group, offs, k);
    } else {
      Times(group, 1, f.groupBlocks);
      assert FromOffs(f, group, offs) + k == FromOffs(f, group + 1, 1);
      PlaceBlock(f, group + 1, 1);
    }
  }

  // ---------------------------------------------------------------------------------------
  // The bitmaps as a set of free blocks

  /** The blocks the bitmaps show as free. */
  ghost predicate Shows(f: Shape, bmp: seq<seq<bool>>, free: set<nat>) {
    forall b: nat :: b in free <==> IsFree(f, bmp, b)
  }

  /** Every group is full exactly if no block is free: what ENOSPC of CreateOne means for the set. */
  lemma NoneFree(f: Shape, bmp: seq<seq<bool>>, counts: seq<int>, total: int, free: set<nat>)
    requires BooksOk(f, bmp, counts, total) && Shows(f, bmp, free)
    ensures free == {} <==> forall g :: 0 <= g < f.groups ==> Full(bmp[g], 0, f.groupBlocks)
  {
    hide High, Low, Pair;
    if g, i :| 0 <= g < f.groups && 0 <= i < f.groupBlocks && !bmp[g][i] {
      assert GroupOk(f, bmp[g], counts[g]);
      PlaceBlock(f, g, i + 1);
      assert FromOffs(f, g, i + 1) in free;
    } else {
      forall g | 0 <= g < f.groups ensures GroupOk(f, bmp[g], counts[g]) && Full(bmp[g], 0, f.groupBlocks) {
        assert GroupOk(f, bmp[g], counts[g]);
      }
      forall b: nat ensures b !in free {
        if b >= f.fstBlock {
          BlockPlace(f, b);
        }
      }
    }
  }

  /** Blocks taken from the bitmaps, or given back, are taken from the set and given back to it. */
  lemma ShowsChange(f: Shape, was: seq<seq<bool>>, bmp: seq<seq<bool>>, free: set<nat>, less: set<nat>, more: set<nat>)
    requires Shows(f, was, free) &&
             forall b: nat :: IsFree(f, bmp, b) <==> (IsFree(f, was, b) && b !in less) || b in more
    ensures Shows(f, bmp, free - less + more)
  {
    hide IsFree;
  }
}
