/**
 * Reading and writing the blocks of an ext2 file in runs (ext2_block_sync and ext2_block_create of
 * ext2/block.c, _ext2_file_read of ext2/file.c).
 *
 * Blocks that follow each other both in the file and on disk are transferred together, missing
 * ones are allocated several at a time.  The file is nevertheless what it would be had every
 * block been written alone, and a read returns the blocks' bytes, with zeros for the missing ones.
 */
module Ext2File {
  import opened Ext2Index
  import opened Ext2Tree
  import opened Ext2Space

  type Byte = b: nat | b < 256

  lemma LookedPtr(a: nat, s: State, t: State)
    requires a > 0 && Looked(a, s, t)
    ensures forall k :: Ptr(a, t, k) == Ptr(a, s, k)
  {
    forall k: nat ensures Ptr(a, t, k) == Ptr(a, s, k) {
      if k < Limit(a) {
        PathIsLeaf(a, k);
      }
    }
  }

  lemma StoredPtr(a: nat, s: State, index: nat, v: nat)
    requires a > 0 && index < Limit(a) && CellIndexed(a, s, PathOf(a, index))
    ensures forall k :: Ptr(a, Stored(a, s, PathOf(a, index), v), k) == if k == index then v else Ptr(a, s, k)
  {
    var t := Stored(a, s, PathOf(a, index), v);
    forall k: nat ensures Ptr(a, t, k) == if k == index then v else Ptr(a, s, k) {
      if k < Limit(a) && PathOf(a, k) == PathOf(a, index) {
        PathInjective(a, k, index);
      }
    }
  }

  lemma FreePositive(a: nat, s: State, b: nat)
    requires Ok(a, s) && b in s.free
    ensures b > 0
  {
  }

  lemma PtrOwned(a: nat, s: State, k: nat)
    requires a > 0 && Ok(a, s) && Ptr(a, s, k) != 0
    ensures k < Limit(a) && Ptr(a, s, k) in s.disk && Ptr(a, s, k) !in s.free
  {
    PathIsLeaf(a, k);
  }

  lemma PtrInjective(a: nat, s: State, j: nat, k: nat)
    requires a > 0 && Ok(a, s) && Ptr(a, s, j) == Ptr(a, s, k) != 0
    ensures j == k
  {
    PathIsLeaf(a, j);
    PathIsLeaf(a, k);
    PathInjective(a, j, k);
  }

  /** Consecutive blocks of the file are consecutive on disk, from block `first` on. */
  ghost predicate InRow(a: nat, s: State, k: nat, n: nat, first: nat) {
    forall j :: k <= j < k + n ==> Ptr(a, s, j) == first + (j - k)
  }

  ghost predicate AllHoles(a: nat, s: State, k: nat, n: nat) {
    forall j :: k <= j < k + n ==> Ptr(a, s, j) == 0
  }

  lemma StoredThere(a: nat, s: State, index: nat, v: nat, k: nat, n: nat)
    requires a > 0 && index < Limit(a) && CellIndexed(a, s, PathOf(a, index)) && AllThere(a, s, k, n)
    ensures AllThere(a, Stored(a, s, PathOf(a, index), v), k, n)
  {
    var t := Stored(a, s, PathOf(a, index), v);
    PathIsLeaf(a, index);
    forall j | k <= j < k + n ensures NodesThere(a, t, j) {
      assert NodesThere(a, s, j);
      var p := PathOf(a, j);
      PathIsLeaf(a, j);
      forall m | 1 <= m < |p| ensures At(t, p[..m]) != 0 {
        assert p[..m] != PathOf(a, index) by {
          assert p[..m][0] == p[0];
        }
      }
    }
  }

  lemma LookedThere(a: nat, s: State, t: State, k: nat, n: nat)
    requires Looked(a, s, t) && AllThere(a, s, k, n)
    ensures AllThere(a, t, k, n)
  {
    forall j | k <= j < k + n ensures NodesThere(a, t, j) {
      assert NodesThere(a, s, j);
    }
  }

  lemma WeightSum(sectors: nat, n: nat, k: nat)
    ensures Weight(sectors, n + k) == Weight(sectors, n) + k * sectors
  {
    Times(n, k, sectors);
  }

  lemma DataStill(a: nat, disk: map<nat, seq<nat>>, other: map<nat, seq<nat>>, data: map<nat, seq<Byte>>)
    requires DataOk(a, disk, data) && disk.Keys == other.Keys
    ensures DataOk(a, other, data)
  {
  }

  lemma LookedKeys(a: nat, s: State, t: State)
    requires Looked(a, s, t)
    ensures s.disk.Keys == t.disk.Keys && s.dead == t.dead && t.free <= s.free && Wrote(a, s, t)
  {
  }

  lemma SamePtr(a: nat, s: State, t: State, k: nat, n: nat)
    requires s.ptr == t.ptr
    ensures forall j :: Ptr(a, t, j) == Ptr(a, s, j)
    ensures AllThere(a, s, k, n) ==> AllThere(a, t, k, n)
  {
    assert forall p :: At(s, p) == At(t, p);
    if AllThere(a, s, k, n) {
      forall j | k <= j < k + n ensures NodesThere(a, t, j) {
        assert NodesThere(a, s, j);
      }
    }
  }

  lemma TakenPtr(a: nat, s: State, t: State, at: nat, b: nat, k: nat, n: nat)
    requires a > 0 && at < Limit(a) && CellIndexed(a, s, PathOf(a, at)) && b > 0 && Ptr(a, s, at) == 0
    requires t == Stored(a, s, PathOf(a, at), b).(free := t.free) && AllThere(a, s, k, n)
    ensures forall j :: Ptr(a, t, j) == if j == at then b else Ptr(a, s, j)
    ensures AllThere(a, t, k, n) && Used(t.ptr) == Used(s.ptr) + 1 && t.disk == s.disk &&
            (s.dead == map[] ==> t.dead == map[])
  {
    hide Limit, Used, At, Ptr, PathOf, CellIndexed;
    StoredPtr(a, s, at, b);
    StoredThere(a, s, at, b, k, n);
    SamePtr(a, Stored(a, s, PathOf(a, at), b), t, k, n);
    PtrNew(a, s, at, b);
  }

  lemma StoredNodes(a: nat, s: State, t: State, index: nat, b: nat, u: State)
    requires a > 0 && index < Limit(a) && t.ptr == s.ptr && u.ptr == t.ptr[PathOf(a, index) := b]
    ensures forall q :: IsNode(a, q) ==> At(u, q) == At(s, q)
  {
    hide PathOf, Limit;
    PathIsLeaf(a, index);
    assert forall q :: At(t, q) == At(s, q);
  }

  lemma PtrNew(a: nat, s: State, index: nat, b: nat)
    requires a > 0 && index < Limit(a) && Ptr(a, s, index) == 0 && b > 0
    ensures Used(s.ptr[PathOf(a, index) := b]) == Used(s.ptr) + 1
  {
    UsedNew(s, PathOf(a, index), b);
  }

  ghost predicate DataOk(a: nat, disk: map<nat, seq<nat>>, data: map<nat, seq<Byte>>) {
    disk.Keys <= data.Keys && forall b :: b in data ==> |data[b]| == 4 * a
  }

  // ---------------------------------------------------------------------------------------
  // What a write costs

  /** There are blocks to write, and too few free ones for those missing and the indirect blocks on the ways. */
  ghost predicate WriteShort(a: nat, s: State, block: nat, n: nat) {
    n > 0 && Short(a, s, block, block + n, |Holes(a, s, block, block + n)|)
  }

  /** A missing block follows one that is there: the allocator then starts its search behind that one. */
  ghost predicate Hinted(a: nat, s: State, block: nat, n: nat) {
    exists k :: block < k < block + n && Ptr(a, s, k) == 0 && Ptr(a, s, k - 1) != 0
  }

  /** i of the blocks have been written, and j or more looked up: this is what they have cost. */
  ghost predicate Paid(a: nat, s0: State, s: State, block: nat, i: nat, j: nat, n: nat) {
    i <= j <= n && Covered(a, s0, s, block, block + j, block + n, |Holes(a, s0, block, block + i)|) &&
    (forall k :: block <= k < block + i ==> Ptr(a, s, k) != 0) &&
    forall k: nat :: block + i <= k ==> Ptr(a, s, k) == Ptr(a, s0, k)
  }

  lemma PaidNothing(a: nat, s: State, block: nat, n: nat)
    ensures Paid(a, s, s, block, 0, 0, n)
  {
    CoveredNothing(a, s, block, block + n);
    assert Holes(a, s, block, block) == {};
  }

  lemma PaidReached(a: nat, s0: State, s: State, block: nat, i: nat, j: nat, n: nat, k: nat)
    requires Paid(a, s0, s, block, i, j, n) && block <= k < block + j
    ensures Reached(a, s, k)
  {
    hide Ptr, Holes, Reached;
  }

  lemma PaidLook(a: nat, s0: State, s: State, t: State, block: nat, i: nat, j: nat, n: nat, found: bool)
    requires Paid(a, s0, s, block, i, j, n) && j < n && Got(a, s, t, block + j, found)
    requires forall k :: Ptr(a, t, k) == Ptr(a, s, k)
    ensures found ==> Paid(a, s0, t, block, i, j + 1, n)
    ensures !found ==> WriteShort(a, s0, block, n)
  {
    hide Ptr, Holes, Covered, Got, Limit, Lacking;
    CoveredNext(a, s0, s, t, block, block + j, block + n, |Holes(a, s0, block, block + i)|, found);
    HolesGrow(a, s0, block, block + i, block + n);
  }

  lemma PaidLess(a: nat, s0: State, s: State, block: nat, i: nat, h: nat, j: nat, n: nat)
    requires Paid(a, s0, s, block, i, j, n) && i <= h <= j
    ensures Paid(a, s0, s, block, i, h, n)
  {
    hide Ptr, Holes, Covered;
    CoveredLess(a, s0, s, block, block + h, block + j, block + n, |Holes(a, s0, block, block + i)|);
  }

  /** The blocks from i on are there, and are written. */
  lemma PaidRun(a: nat, s0: State, s: State, t: State, block: nat, i: nat, h: nat, j: nat, n: nat)
    requires Paid(a, s0, s, block, i, j, n) && i <= h <= j && t.ptr == s.ptr && t.free == s.free
    requires forall k :: block + i <= k < block + h ==> Ptr(a, s, k) != 0
    ensures Paid(a, s0, t, block, h, j, n)
  {
    hide Holes, Opened, Limit, PathOf;
    HolesSame(a, s0, block, block + i, block + h);
    var x := |Holes(a, s0, block, block + i)|;
    var u :| block + j <= u <= block + n && Opened(a, s0, s, block, u, x);
    OpenedSpend(a, s0, s, t, block, u, x, 0);
    SamePtr(a, s, t, 0, 0);
  }

  /** k missing blocks got one each. */
  lemma PaidFill(a: nat, s0: State, s: State, t: State, block: nat, i: nat, k: nat, j: nat, n: nat)
    requires Paid(a, s0, s, block, i, j, n) && i + k <= j && AllHoles(a, s, block + i, k)
    requires forall q :: IsNode(a, q) ==> At(t, q) == At(s, q)
    requires |t.free| + k == |s.free| && forall h :: block + i <= h < block + i + k ==> Ptr(a, t, h) != 0
    requires forall h: nat :: !(block + i <= h < block + i + k) ==> Ptr(a, t, h) == Ptr(a, s, h)
    ensures Paid(a, s0, t, block, i + k, j, n)
  {
    hide Holes, Opened, Ptr;
    HolesMore(a, s0, block, block + i, block + i + k);
    var x := |Holes(a, s0, block, block + i)|;
    var u :| block + j <= u <= block + n && Opened(a, s0, s, block, u, x);
    OpenedSpend(a, s0, s, t, block, u, x, k);
  }

  /** With no free block left, and one missing, there were too few. */
  lemma PaidOut(a: nat, s0: State, s: State, block: nat, i: nat, j: nat, n: nat)
    requires Paid(a, s0, s, block, i, j, n) && i < j && Ptr(a, s, block + i) == 0 && s.free == {}
    ensures WriteShort(a, s0, block, n)
  {
    hide Holes, Ptr, Lacking, Limit;
    HolesMore(a, s0, block, block + i, block + i + 1);
    HolesGrow(a, s0, block, block + i + 1, block + n);
    var u :| block + j <= u <= block + n && Opened(a, s0, s, block, u, |Holes(a, s0, block, block + i)|);
    LackingMore(a, s0, block, u, block + n);
  }

  lemma PaidHints(a: nat, s0: State, s: State, block: nat, i: nat, j: nat, n: nat)
    requires Paid(a, s0, s, block, i, j + 1, n) && i < j && Ptr(a, s, block + j) == 0 && Ptr(a, s, block + j - 1) != 0
    ensures Hinted(a, s0, block, n)
  {
    hide Ptr, Covered, Holes;
    assert Ptr(a, s0, block + j) == 0 && Ptr(a, s0, block + j - 1) != 0;
  }

  lemma NothingToWrite(a: nat, s: State, block: nat)
    ensures !WriteShort(a, s, block, 0)
  {
  }

  lemma PaidAll(a: nat, s0: State, s: State, block: nat, n: nat)
    requires Paid(a, s0, s, block, n, n, n) && n > 0
    ensures !WriteShort(a, s0, block, n)
    ensures |s.free| == |s0.free| - |Lacking(a, s0, block, block + n)| - |Holes(a, s0, block, block + n)|
  {
    hide Holes, Ptr, Lacking, Limit, Covered;
    CoveredAll(a, s0, s, block, block + n, |Holes(a, s0, block, block + n)|);
  }

  /** What is mapped throughout can always be written. */
  lemma MappedWrites(a: nat, s: State, block: nat, n: nat)
    requires Ok(a, s) && forall k :: block <= k < block + n ==> Ptr(a, s, k) != 0
    ensures !WriteShort(a, s, block, n) && !Hinted(a, s, block, n)
  {
    hide Ok, Ptr, Limit, Lacking;
    MappedCostsNothing(a, s, block, block + n);
    assert Holes(a, s, block, block + n) == {};
  }

  // ---------------------------------------------------------------------------------------
  // The contents of the file

  ghost function Zeros(a: nat): (r: seq<Byte>) {
    seq(4 * a, i => 0)
  }

  /** Block k of the file as a reader sees it. */
  ghost function Shown(a: nat, s: State, data: map<nat, seq<Byte>>, k: nat): seq<Byte> {
    var b := Ptr(a, s, k);
    if b == 0 then Zeros(a) else if b in data then data[b] else []
  }

  /** Blocks written to the disk one after the other. */
  function Put(data: map<nat, seq<Byte>>, first: nat, bufs: seq<seq<Byte>>): (r: map<nat, seq<Byte>>)
    ensures forall b :: b in r <==> b in data || first <= b < first + |bufs|
    ensures forall b :: b in r ==> r[b] == if first <= b < first + |bufs| then bufs[b - first] else data[b]
  {
    if bufs == [] then data
    else Put(data, first, bufs[..|bufs| - 1])[first + |bufs| - 1 := bufs[|bufs| - 1]]
  }

  ghost predicate Named(a: nat, s: State, b: nat, lo: nat, hi: nat) {
    b > 0 && exists k :: lo <= k < hi && Ptr(a, s, k) == b
  }

  /** The file holds the first i blocks of the buffer from `block` on, and elsewhere what it held. */
  ghost predicate Contents(a: nat, s0: State, d0: map<nat, seq<Byte>>, s: State, d: map<nat, seq<Byte>>, block: nat,
                           buff: seq<seq<Byte>>, i: nat) {
    i <= |buff| &&
    forall k: nat :: Shown(a, s, d, k) == if block <= k < block + i then buff[k - block] else Shown(a, s0, d0, k)
  }

  /**
   * No block the file had was given up, and those it got, in the range, were free.  Of the device, slots written
   * back changed indirect blocks only, which were so before or were free.
   */
  ghost predicate Grown(a: nat, s0: State, s: State, lo: nat, hi: nat) {
    Wrote(a, s0, s) &&
    forall k: nat :: Ptr(a, s, k) != Ptr(a, s0, k) ==> Ptr(a, s0, k) == 0 && lo <= k < hi && Ptr(a, s, k) in s0.free
  }

  /** No block of the device was written but those of the range. */
  ghost predicate Touched(a: nat, d0: map<nat, seq<Byte>>, s: State, d: map<nat, seq<Byte>>, lo: nat, hi: nat) {
    d.Keys == d0.Keys && forall b :: b in d0 && d[b] != d0[b] ==> Named(a, s, b, lo, hi)
  }

  ghost predicate Done(a: nat, s0: State, d0: map<nat, seq<Byte>>, s: State, d: map<nat, seq<Byte>>, block: nat,
                       buff: seq<seq<Byte>>, i: nat) {
    Contents(a, s0, d0, s, d, block, buff, i) && Grown(a, s0, s, block, block + |buff|) &&
    Touched(a, d0, s, d, block, block + |buff|)
  }

  lemma DoneNothing(a: nat, s: State, d: map<nat, seq<Byte>>, block: nat, buff: seq<seq<Byte>>)
    ensures Done(a, s, d, s, d, block, buff, 0)
  {
    SameWrote(a, s);
  }

  /** A state with the same pointers is as good. */
  lemma TouchedStill(a: nat, d0: map<nat, seq<Byte>>, s: State, d: map<nat, seq<Byte>>, lo: nat, hi: nat, t: State)
    requires Touched(a, d0, s, d, lo, hi)
    requires forall k: nat :: Ptr(a, s, k) != 0 ==> Ptr(a, t, k) == Ptr(a, s, k)
    ensures Touched(a, d0, t, d, lo, hi)
  {
    hide Ptr;
    forall b | b in d0 && d[b] != d0[b] ensures Named(a, t, b, lo, hi) {
      var k :| lo <= k < hi && Ptr(a, s, k) == b;
      assert Ptr(a, t, k) == b;
    }
  }

  lemma DoneLooked(a: nat, s0: State, d0: map<nat, seq<Byte>>, s: State, d: map<nat, seq<Byte>>, block: nat,
                   buff: seq<seq<Byte>>, i: nat, t: State)
    requires a > 0 && Done(a, s0, d0, s, d, block, buff, i) && Looked(a, s, t)
    ensures Done(a, s0, d0, t, d, block, buff, i)
  {
    LookedPtr(a, s, t);
    LookedKeys(a, s, t);
    WroteTrans(a, s0, s, t);
    hide Ptr, Looked, Wrote;
    TouchedStill(a, d0, s, d, block, block + |buff|, t);
    forall k: nat ensures Shown(a, t, d, k) == Shown(a, s, d, k) {
    }
  }

  /** A run of blocks is written where the file has it. */
  lemma DoneWrite(a: nat, s0: State, d0: map<nat, seq<Byte>>, s: State, d: map<nat, seq<Byte>>, block: nat,
                  buff: seq<seq<Byte>>, i: nat, j: nat, first: nat)
    requires a > 0 && Ok(a, s) && Done(a, s0, d0, s, d, block, buff, i) && i <= j <= |buff| && DataOk(a, s.disk, d)
    requires first > 0 && InRow(a, s, block + i, j - i, first)
    requires forall k :: 0 <= k < |buff| ==> |buff[k]| == 4 * a
    ensures Done(a, s0, d0, s, Put(d, first, buff[i..j]), block, buff, j) &&
            DataOk(a, s.disk, Put(d, first, buff[i..j]))
  {
    hide Ok, Ptr, Put, Contents, Grown;
    RunNamed(a, s, d, block + i, j - i, first);
    var e := Put(d, first, buff[i..j]);
    forall b | b in d0 && e[b] != d0[b] ensures Named(a, s, b, block, block + |buff|) {
      if first <= b < first + (j - i) {
        assert Ptr(a, s, block + i + (b - first)) == b;
      }
    }
    WriteContents(a, s0, d0, s, d, block, buff, i, j, first);
  }

  lemma RunNamed(a: nat, s: State, d: map<nat, seq<Byte>>, k: nat, n: nat, first: nat)
    requires a > 0 && Ok(a, s) && DataOk(a, s.disk, d) && first > 0 && InRow(a, s, k, n, first)
    ensures forall b :: first <= b < first + n ==> b in d && Ptr(a, s, k + (b - first)) == b
  {
    hide Ok, Ptr;
    forall b: nat | first <= b < first + n ensures b in d && Ptr(a, s, k + (b - first)) == b {
      PtrOwned(a, s, k + (b - first));
    }
  }

  lemma WriteContents(a: nat, s0: State, d0: map<nat, seq<Byte>>, s: State, d: map<nat, seq<Byte>>, block: nat,
                      buff: seq<seq<Byte>>, i: nat, j: nat, first: nat)
    requires a > 0 && Ok(a, s) && Contents(a, s0, d0, s, d, block, buff, i) && i <= j <= |buff| && DataOk(a, s.disk, d)
    requires first > 0 && InRow(a, s, block + i, j - i, first)
    ensures Contents(a, s0, d0, s, Put(d, first, buff[i..j]), block, buff, j)
  {
    hide Ok, Ptr, Put;
    var e := Put(d, first, buff[i..j]);
    forall k: nat ensures Shown(a, s, e, k) == if block <= k < block + j then buff[k - block] else Shown(a, s0, d0, k) {
      var b := Ptr(a, s, k);
      assert Shown(a, s, d, k) == if block <= k < block + i then buff[k - block] else Shown(a, s0, d0, k);
      if block + i <= k < block + j {
        assert e[b] == buff[i..j][b - first];
      } else if first <= b < first + (j - i) {
        PtrInjective(a, s, k, block + i + (b - first));
      }
    }
  }

  /** Free blocks were taken for a run of missing ones, and written at once. */
  lemma DoneFill(a: nat, s0: State, d0: map<nat, seq<Byte>>, s: State, d: map<nat, seq<Byte>>, block: nat,
                 buff: seq<seq<Byte>>, i: nat, j: nat, first: nat, t: State)
    requires a > 0 && Ok(a, t) && Done(a, s0, d0, s, d, block, buff, i) && i <= j <= |buff| && DataOk(a, s.disk, d)
    requires first > 0 && InRow(a, t, block + i, j - i, first) && AllHoles(a, s, block + i, j - i)
    requires forall k: nat :: !(block + i <= k < block + j) ==> Ptr(a, t, k) == Ptr(a, s, k)
    requires forall b :: first <= b < first + (j - i) ==> b in s.free
    requires Wrote(a, s, t)
    requires forall k :: 0 <= k < |buff| ==> |buff[k]| == 4 * a
    ensures Done(a, s0, d0, t, Put(d, first, buff[i..j]), block, buff, j) &&
            DataOk(a, t.disk, Put(d, first, buff[i..j]))
  {
    hide Ok, Ptr, Put, Contents, Wrote, Grown, Touched, DataOk;
    FillData(a, s, d, t, first, buff[i..j]);
    RunNamed(a, t, d, block + i, j - i, first);
    FillTouched(a, s0, d0, s, d, block, buff, i, j, first, t);
    FillGrown(a, s0, s, block, block + |buff|, block + i, block + j, first, t);
    FillContents(a, s0, d0, s, d, block, buff, i, j, first, t);
  }

  lemma FillData(a: nat, s: State, d: map<nat, seq<Byte>>, t: State, first: nat, bufs: seq<seq<Byte>>)
    requires DataOk(a, s.disk, d) && Wrote(a, s, t) && forall k :: 0 <= k < |bufs| ==> |bufs[k]| == 4 * a
    ensures DataOk(a, t.disk, d) && DataOk(a, t.disk, Put(d, first, bufs))
  {
    hide Put;
  }

  lemma FillTouched(a: nat, s0: State, d0: map<nat, seq<Byte>>, s: State, d: map<nat, seq<Byte>>, block: nat,
                    buff: seq<seq<Byte>>, i: nat, j: nat, first: nat, t: State)
    requires Touched(a, d0, s, d, block, block + |buff|) && i <= j <= |buff| && first > 0
    requires AllHoles(a, s, block + i, j - i)
    requires forall k: nat :: !(block + i <= k < block + j) ==> Ptr(a, t, k) == Ptr(a, s, k)
    requires forall b :: first <= b < first + (j - i) ==> b in d && Ptr(a, t, block + i + (b - first)) == b
    ensures Touched(a, d0, t, Put(d, first, buff[i..j]), block, block + |buff|)
  {
    hide Ptr, Put;
    var e := Put(d, first, buff[i..j]);
    TouchedStill(a, d0, s, d, block, block + |buff|, t);
    forall b | b in d0 && e[b] != d0[b] ensures Named(a, t, b, block, block + |buff|) {
      if first <= b < first + (j - i) {
        assert Ptr(a, t, block + i + (b - first)) == b;
      }
    }
  }

  lemma FillGrown(a: nat, s0: State, s: State, lo: nat, hi: nat, from: nat, to: nat, first: nat, t: State)
    requires Grown(a, s0, s, lo, hi) && Wrote(a, s, t) && lo <= from <= to <= hi && AllHoles(a, s, from, to - from)
    requires InRow(a, t, from, to - from, first) && forall b :: first <= b < first + (to - from) ==> b in s.free
    requires forall k: nat :: !(from <= k < to) ==> Ptr(a, t, k) == Ptr(a, s, k)
    ensures Grown(a, s0, t, lo, hi)
  {
    WroteTrans(a, s0, s, t);
    WroteFree(a, s0, s);
    hide Ptr, Wrote;
    forall k: nat | Ptr(a, t, k) != Ptr(a, s0, k)
      ensures Ptr(a, s0, k) == 0 && lo <= k < hi && Ptr(a, t, k) in s0.free
    {
      if from <= k < to {
        assert Ptr(a, s, k) == 0;
      }
    }
  }

  /**
   * How a block of the device was written, if at all: as a data block of the range, or as an indirect block of the
   * file that was one or was free, and never as both; block 0 where a buffer without a block was written back.
   */
  ghost predicate WrittenAs(a: nat, s0: State, d0: map<nat, seq<Byte>>, s: State, d: map<nat, seq<Byte>>, lo: nat,
                            hi: nat, b: nat)
    requires b in s0.disk && b in s.disk && b in d0 && b in d
  {
    || (s.disk[b] == s0.disk[b] && d[b] == d0[b])
    || (s.disk[b] == s0.disk[b] && Named(a, s, b, lo, hi))
    || (d[b] == d0[b] && IsIndirect(a, s, b) && (IsIndirect(a, s0, b) || b in s0.free))
    || (d[b] == d0[b] && b == 0 && s0.strays < s.strays)
  }

  lemma DataNotIndirect(a: nat, s: State, k: nat, b: nat)
    requires a > 0 && Ok(a, s) && Ptr(a, s, k) == b != 0
    ensures !IsIndirect(a, s, b)
  {
    PathIsLeaf(a, k);
    hide PathOf;
    forall q | IsNode(a, q) ensures At(s, q) != b {
    }
  }

  lemma DoneWritten(a: nat, s0: State, d0: map<nat, seq<Byte>>, s: State, d: map<nat, seq<Byte>>, block: nat,
                    buff: seq<seq<Byte>>, i: nat, b: nat)
    requires a > 0 && Ok(a, s) && Done(a, s0, d0, s, d, block, buff, i) && b in s0.disk && b in d0
    ensures b in s.disk && b in d && WrittenAs(a, s0, d0, s, d, block, block + |buff|, b)
  {
    hide Contents, Ok, Ptr;
    if d[b] != d0[b] {
      var k :| block <= k < block + |buff| && Ptr(a, s, k) == b;
      DataNotIndirect(a, s, k, b);
    }
    assert s.disk[b] != s0.disk[b] ==> MayDiffer(a, s0, s, b);
  }

  lemma PtrTotal(a: nat, s: State, k: nat)
    requires Ptr(a, s, k) != 0
    ensures Ptr(a, s, k) in Total(s.free, s.ptr)
  {
    hide PathOf, Limit;
    assert PathOf(a, k) in s.ptr;
  }

  lemma IndirectTotal(a: nat, s: State, b: nat)
    requires IsIndirect(a, s, b)
    ensures b in Total(s.free, s.ptr)
  {
    var q :| IsNode(a, q) && At(s, q) == b && b != 0;
    assert q in s.ptr;
  }

  /** What the file names in the range it had, or was free. */
  lemma NamedTotal(a: nat, s0: State, s: State, b: nat, lo: nat, hi: nat)
    requires Grown(a, s0, s, lo, hi) && Named(a, s, b, lo, hi)
    ensures b in Total(s0.free, s0.ptr)
  {
    hide Wrote, Ptr;
    var k :| lo <= k < hi && Ptr(a, s, k) == b;
    if Ptr(a, s0, k) == b {
      PtrTotal(a, s0, k);
    } else {
      assert b in s0.free;
    }
  }

  /** A block that was neither free nor the file's is not touched. */
  lemma ForeignKept(a: nat, s0: State, d0: map<nat, seq<Byte>>, s: State, d: map<nat, seq<Byte>>, block: nat,
                    buff: seq<seq<Byte>>, i: nat, b: nat)
    requires a > 0 && Done(a, s0, d0, s, d, block, buff, i) && b in s0.disk && b in d0 && b != 0 &&
             b !in Total(s0.free, s0.ptr)
    ensures b in s.disk && b in d && s.disk[b] == s0.disk[b] && d[b] == d0[b]
  {
    hide Contents, Ptr;
    assert s.disk[b] != s0.disk[b] ==> MayDiffer(a, s0, s, b);
    if IsIndirect(a, s0, b) {
      IndirectTotal(a, s0, b);
    }
    if Named(a, s, b, block, block + |buff|) {
      NamedTotal(a, s0, s, b, block, block + |buff|);
    }
  }

  lemma FillContents(a: nat, s0: State, d0: map<nat, seq<Byte>>, s: State, d: map<nat, seq<Byte>>, block: nat,
                     buff: seq<seq<Byte>>, i: nat, j: nat, first: nat, t: State)
    requires a > 0 && Ok(a, t) && Contents(a, s0, d0, s, d, block, buff, i) && i <= j <= |buff|
    requires first > 0 && InRow(a, t, block + i, j - i, first)
    requires forall k: nat :: !(block + i <= k < block + j) ==> Ptr(a, t, k) == Ptr(a, s, k)
    ensures Contents(a, s0, d0, t, Put(d, first, buff[i..j]), block, buff, j)
  {
    hide Ok, Ptr, Put;
    var e := Put(d, first, buff[i..j]);
    forall k: nat ensures Shown(a, t, e, k) == if block <= k < block + j then buff[k - block] else Shown(a, s0, d0, k) {
      var b := Ptr(a, t, k);
      assert Shown(a, s, d, k) == if block <= k < block + i then buff[k - block] else Shown(a, s0, d0, k);
      if block + i <= k < block + j {
        assert e[b] == buff[i..j][b - first];
      } else if first <= b < first + (j - i) {
        PtrInjective(a, t, k, block + i + (b - first));
      }
    }
  }

  /** Byte x of the file, in blocks of `bs` bytes. */
  ghost function ByteAt(a: nat, s: State, d: map<nat, seq<Byte>>, x: nat): Byte
    requires a > 0 && forall k: nat :: |Shown(a, s, d, k)| == 4 * a
  {
    Split(x, 4 * a);
    Shown(a, s, d, High(x, 4 * a))[Low(x, 4 * a)]
  }

  ghost predicate AllBlocks(a: nat, s: State, d: map<nat, seq<Byte>>) {
    forall k: nat :: |Shown(a, s, d, k)| == 4 * a
  }

  lemma BlocksWhole(a: nat, s: State, d: map<nat, seq<Byte>>)
    requires a > 0 && Ok(a, s) && DataOk(a, s.disk, d)
    ensures AllBlocks(a, s, d)
  {
    hide Ok, Ptr;
    forall k: nat ensures |Shown(a, s, d, k)| == 4 * a {
      if Ptr(a, s, k) != 0 {
        PtrOwned(a, s, k);
      }
    }
  }

  lemma LookedShown(a: nat, s: State, t: State, d: map<nat, seq<Byte>>)
    requires a > 0 && Looked(a, s, t) && AllBlocks(a, s, d)
    ensures AllBlocks(a, t, d) && forall k: nat :: Shown(a, t, d, k) == Shown(a, s, d, k)
    ensures forall x: nat :: ByteAt(a, t, d, x) == ByteAt(a, s, d, x)
  {
    LookedPtr(a, s, t);
    hide Looked, Ptr;
    forall k: nat ensures Shown(a, t, d, k) == Shown(a, s, d, k) {
    }
  }

  /** The bytes of the buffer up to l are those of the file from `offs` on. */
  ghost predicate Read(a: nat, s: State, d: map<nat, seq<Byte>>, offs: nat, buff: seq<Byte>, l: nat)
    requires a > 0 && AllBlocks(a, s, d)
  {
    l <= |buff| && forall x :: 0 <= x < l ==> buff[x] == ByteAt(a, s, d, offs + x)
  }

  /** y bytes into block k. */
  lemma Further(k: nat, y: nat, bs: nat)
    requires bs > 0
    ensures High(Pair(k, 0, bs) + y, bs) == k + High(y, bs) && Low(Pair(k, 0, bs) + y, bs) == Low(y, bs)
  {
    Split(y, bs);
    Times(k, High(y, bs), bs);
    assert Pair(k, 0, bs) + y == Pair(k + High(y, bs), Low(y, bs), bs);
    Join(k + High(y, bs), Low(y, bs), bs);
  }

  lemma NextBlock(k: nat, n: nat, bs: nat)
    ensures Pair(k + n, 0, bs) == Pair(k, 0, bs) + Mul(n, bs)
  {
    Times(k, n, bs);
  }

  lemma PtrHasData(a: nat, s: State, d: map<nat, seq<Byte>>, k: nat)
    requires a > 0 && Ok(a, s) && DataOk(a, s.disk, d)
    ensures Ptr(a, s, k) != 0 ==> Ptr(a, s, k) in d
  {
    if Ptr(a, s, k) != 0 {
      PtrOwned(a, s, k);
    }
  }

  /** Bytes from within one block of the file are appended to what was read. */
  lemma ReadPiece(a: nat, s: State, d: map<nat, seq<Byte>>, offs: nat, before: seq<Byte>, after: seq<Byte>, l: nat,
                  n: nat, k: nat, from: nat)
    requires a > 0 && AllBlocks(a, s, d) && Read(a, s, d, offs, before, l) && l + n <= |after| == |before|
    requires offs + l == Pair(k, from, 4 * a) && from + n <= 4 * a
    requires after[..l] == before[..l] && after[l..l + n] == Shown(a, s, d, k)[from..from + n]
    ensures Read(a, s, d, offs, after, l + n)
  {
    hide Shown, High, Low;
    forall x | 0 <= x < l + n ensures after[x] == ByteAt(a, s, d, offs + x) {
      if x < l {
        assert after[x] == after[..l][x] == before[..l][x];
      } else {
        Join(k, from + (x - l), 4 * a);
        assert offs + x == Pair(k, from + (x - l), 4 * a);
        assert after[x] == after[l..l + n][x - l];
      }
    }
  }

  /** So are the bytes of a run of blocks. */
  lemma ReadRun(a: nat, s: State, d: map<nat, seq<Byte>>, offs: nat, before: seq<Byte>, after: seq<Byte>, l: nat,
                n: nat, k: nat)
    requires a > 0 && AllBlocks(a, s, d) && Read(a, s, d, offs, before, l) && l + Mul(n, 4 * a) <= |after| == |before|
    requires offs + l == Pair(k, 0, 4 * a) && after[..l] == before[..l]
    requires forall y: nat :: y < Mul(n, 4 * a) ==>
             Low(y, 4 * a) < |Shown(a, s, d, k + High(y, 4 * a))| &&
             after[l + y] == Shown(a, s, d, k + High(y, 4 * a))[Low(y, 4 * a)]
    ensures Read(a, s, d, offs, after, l + Mul(n, 4 * a))
  {
    hide Shown, High, Low, Pair, Mul;
    forall x: nat | x < l + Mul(n, 4 * a) ensures after[x] == ByteAt(a, s, d, offs + x) {
      if x < l {
        assert after[x] == after[..l][x] == before[..l][x];
      } else {
        var y := x - l;
        Further(k, y, 4 * a);
        assert after[l + y] == Shown(a, s, d, k + High(y, 4 * a))[Low(y, 4 * a)];
      }
    }
  }

  /** Nothing from t on has changed. */
  ghost predicate Beyond(s: seq<Byte>, was: seq<Byte>, t: nat) {
    |s| == |was| && forall i :: t <= i < |s| ==> s[i] == was[i]
  }

  lemma BeyondAll(b: seq<Byte>)
    ensures Beyond(b, b, 0)
  {
  }

  lemma BeyondTrans(c: seq<Byte>, b: seq<Byte>, a: seq<Byte>, i: nat, j: nat)
    requires Beyond(b, a, i) && Beyond(c, b, j) && i <= j
    ensures Beyond(c, a, j)
  {
  }

  lemma ReadNone(a: nat, s: State, d: map<nat, seq<Byte>>, offs: nat, buff: seq<Byte>)
    requires a > 0 && AllBlocks(a, s, d)
    ensures Read(a, s, d, offs, buff, 0)
  {
  }

  method CopyInto(buff: array<Byte>, at: nat, src: seq<Byte>)
    requires at + |src| <= buff.Length
    modifies buff
    ensures buff[..at] == old(buff[..at]) && buff[at..at + |src|] == src && Beyond(buff[..], old(buff[..]), at + |src|)
  {
    forall i | at <= i < at + |src| {
      buff[i] := src[i - at];
    }
  }

  lemma RunHasData(a: nat, s: State, d: map<nat, seq<Byte>>)
    requires a > 0 && Ok(a, s) && DataOk(a, s.disk, d)
    ensures forall k, n, first: nat :: first > 0 && InRow(a, s, k, n, first) ==>
            forall b :: first <= b < first + n ==> b in d && |d[b]| == 4 * a
  {
    hide Ok, Ptr, DataOk;
    forall k, n, first: nat | first > 0 && InRow(a, s, k, n, first)
      ensures forall b :: first <= b < first + n ==> b in d && |d[b]| == 4 * a
    {
      RunNamed(a, s, d, k, n, first);
      DataSizes(a, s, d);
    }
  }

  lemma DataSizes(a: nat, s: State, d: map<nat, seq<Byte>>)
    requires DataOk(a, s.disk, d)
    ensures forall b :: b in d ==> |d[b]| == 4 * a
  {
  }

  lemma MulMono(n: nat, m: nat, bs: nat)
    requires n <= m
    ensures Mul(n, bs) <= Mul(m, bs)
  {
    Times(n, m, bs);
  }

  lemma OneBlock(bs: nat)
    ensures Mul(1, bs) == bs
  {
  }

  /** What the blocks of a run show is what is on disk there. */
  lemma RunShown(a: nat, s: State, d: map<nat, seq<Byte>>, k: nat, n: nat, first: nat, buff: seq<Byte>, l: nat)
    requires a > 0 && first > 0 && InRow(a, s, k, n, first) && AllBlocks(a, s, d) && l + Mul(n, 4 * a) <= |buff|
    requires forall b :: first <= b < first + n ==> b in d
    requires forall y: nat :: y < Mul(n, 4 * a) ==>
               High(y, 4 * a) < n && Low(y, 4 * a) < 4 * a && |d[first + High(y, 4 * a)]| == 4 * a &&
               buff[l + y] == d[first + High(y, 4 * a)][Low(y, 4 * a)]
    ensures forall y: nat :: y < Mul(n, 4 * a) ==>
              Low(y, 4 * a) < |Shown(a, s, d, k + High(y, 4 * a))| &&
              buff[l + y] == Shown(a, s, d, k + High(y, 4 * a))[Low(y, 4 * a)]
  {
    hide Ptr, Mul, High, Low;
    forall y: nat | y < Mul(n, 4 * a)
      ensures Low(y, 4 * a) < |Shown(a, s, d, k + High(y, 4 * a))| &&
              buff[l + y] == Shown(a, s, d, k + High(y, 4 * a))[Low(y, 4 * a)]
    {
      assert Ptr(a, s, k + High(y, 4 * a)) == first + High(y, 4 * a);
    }
  }

  /** The longest run handed to the device at once, in blocks. */
  function RunMax(bs: nat): (n: nat)
    requires bs > 0
    ensures n > 0
  {
    if 0x1_0000 / bs > 0 then 0x1_0000 / bs else 1
  }

  /** After the part of the first block, either all is read or the next block begins. */
  lemma AfterHead(offs: nat, len: nat, l: nat, block: nat, from: nat, bs: nat)
    requires bs > 0 && offs == Pair(block, from, bs) && from < bs && l == if bs - from > len then len else bs - from
    ensures offs + l == Pair(block + 1, 0, bs) || (l == len && High(offs + len, bs) <= block + 1)
  {
    Times(block, 1, bs);
    if bs - from > len {
      Join(block, from + len, bs);
    }
  }

  /** The whole blocks up to `end` are all wanted. */
  lemma Inside(offs: nat, len: nat, l: nat, block: nat, end: nat, bs: nat)
    requires bs > 0 && end == High(offs + len, bs) && block <= end && offs + l == Pair(block, 0, bs)
    ensures l + Mul(end - block, bs) <= len
  {
    Split(offs + len, bs);
    NextBlock(block, end - block, bs);
  }

  /** What is left after them is less than a block. */
  lemma AtEnd(offs: nat, len: nat, l: nat, block: nat, end: nat, bs: nat)
    requires bs > 0 && end == High(offs + len, bs) && end <= block && offs + l == Pair(block, 0, bs) && l <= len
    ensures len - l <= bs
  {
    Split(offs + len, bs);
    Times(end, block, bs);
  }

  /** The block after the last that l bytes from `offs` on are in. */
  function Ends(offs: nat, l: nat, bs: nat): nat
    requires bs > 0
  {
    if l == 0 then High(offs, bs) else High(offs + l - 1, bs) + 1
  }

  /** There are bytes to read, and too few free blocks for the indirect blocks missing on the ways to them. */
  ghost predicate TooShort(a: nat, s: State, offs: nat, len: nat)
    requires a > 0
  {
    len > 0 && Short(a, s, High(offs, 4 * a), Ends(offs, len, 4 * a), 0)
  }

  lemma EndsAligned(offs: nat, l: nat, block: nat, bs: nat)
    requires bs > 0 && offs + l == Pair(block, 0, bs)
    ensures Ends(offs, l, bs) == block
  {
    if l > 0 {
      EndsHead(offs + l - 1, 1, block - 1, bs - 1, bs);
    } else {
      Join(block, 0, bs);
    }
  }

  /** Bytes within one block. */
  lemma EndsHead(offs: nat, l: nat, block: nat, from: nat, bs: nat)
    requires bs > 0 && l > 0 && offs == Pair(block, from, bs) && from + l <= bs
    ensures Ends(offs, l, bs) == block + 1
  {
    assert offs + l - 1 == Pair(block, from + l - 1, bs);
    Join(block, from + l - 1, bs);
  }

  /** The bytes left are in the block after the whole ones. */
  lemma EndsTail(offs: nat, len: nat, l: nat, block: nat, bs: nat)
    requires bs > 0 && l < len && offs + l == Pair(block, 0, bs) && len - l <= bs
    ensures Ends(offs, len, bs) == block + 1
  {
    EndsHead(offs + l, len - l, block, 0, bs);
  }

  lemma EndsBound(offs: nat, len: nat, bs: nat)
    requires bs > 0 && len > 0
    ensures High(offs, bs) < Ends(offs, len, bs) && High(offs + len, bs) <= Ends(offs, len, bs)
  {
    hide High, Mul;
    HighMono(offs, offs + len - 1, bs);
    HighNext(offs + len - 1, bs);
  }

  lemma HighMono(x: nat, y: nat, a: nat)
    requires a > 0 && x <= y
    ensures High(x, a) <= High(y, a)
  {
    hide High, Mul;
    Within(y, a, High(y, a) + 1);
    Within(x, a, High(y, a) + 1);
  }

  lemma HighNext(x: nat, a: nat)
    requires a > 0
    ensures High(x + 1, a) <= High(x, a) + 1
  {
    var n := High(x, a) + 1;
    Within(x, a, n);
    Within(x + 1, a, n + 1);
    Times(n, 1, a);
  }

  /** A file on the device: its object with the pointers, and the bytes of all data blocks. */
  class Ext2File {
    const obj: Ext2Object
    var data: map<nat, seq<Byte>>
    /** `size` of the inode. */
    var size: nat

    ghost predicate Valid()
      reads this, obj
    {
      obj.a > 0 && Ok(obj.a, obj.St()) && obj.dead == map[] && DataOk(obj.a, obj.disk, data)
    }

    constructor (obj: Ext2Object, data: map<nat, seq<Byte>>, size: nat)
      requires obj.a > 0 && Ok(obj.a, obj.St()) && obj.dead == map[] && DataOk(obj.a, obj.disk, data)
      ensures Valid() && this.obj == obj && this.data == data && this.size == size
    {
      this.obj, this.data, this.size := obj, data, size;
    }

    /**
     * ext2_block_create: a run of free blocks is taken for blocks of the file that have none, as long as
     * it lasts.  The bitmap is read once and written back at the end; it must not have changed on disk
     * in between, and has not, because the lookups need no new indirect block.  A search that starts behind a
     * block given as a hint may give up though there are free ones.
     */
    method Create(index: nat, n: nat, hint: nat) returns (err: int, k: nat)
      requires Valid() && 0 < n && AllThere(obj.a, obj.St(), index, n) && AllHoles(obj.a, obj.St(), index, n)
      modifies obj
      ensures err == EOK || err == -ENOSPC
      ensures Valid() && obj.disk.Keys == old(obj.disk.Keys) && obj.free <= old(obj.free) &&
              obj.blocks == old(obj.blocks)
      ensures err == EOK ==> 0 < k <= n && exists first ::
                first > 0 && InRow(obj.a, obj.St(), index, k, first) &&
                forall b :: first <= b < first + k ==> b in old(obj.free)
      ensures err != EOK ==> k == 0 && (old(obj.free) == {} || hint != 0)
      ensures old(obj.free) == {} ==> err != EOK
      ensures |obj.free| + k == |old(obj.free)|
      ensures forall q :: IsNode(obj.a, q) ==> At(obj.St(), q) == old(At(obj.St(), q))
      ensures forall j: nat :: !(index <= j < index + k) ==> Ptr(obj.a, obj.St(), j) == old(Ptr(obj.a, obj.St(), j))
      ensures Used(obj.ptr) == old(Used(obj.ptr)) + k
      ensures AllThere(obj.a, obj.St(), index, n)
      ensures Wrote(obj.a, old(obj.St()), obj.St()) && Strayed(old(obj.St()), obj.St(), false)
    {
      hide Ok, Ptr, PathOf, Limit, Wrote, Strayed, Used, DataOk, NodesThere, At, IsNode;
      SameWrote(obj.a, obj.St());
      k := 0;
      var bmp := obj.free;
      var givesUp := *;
      if bmp == {} || (hint != 0 && givesUp) {
        return -ENOSPC, 0;
      }
      var offset :| offset in bmp;
      var room: nat :| room > 0;
      while k < n && k < room && offset + k in bmp
        invariant k == 0 ==> offset in bmp
        invariant k <= n && Valid() && bmp == obj.free <= old(obj.free) && obj.disk.Keys == old(obj.disk.Keys)
        invariant obj.blocks == old(obj.blocks)
        invariant InRow(obj.a, obj.St(), index, k, offset)
        invariant forall b :: offset <= b < offset + k ==> b in old(obj.free)
        invariant forall j: nat :: !(index <= j < index + k) ==> Ptr(obj.a, obj.St(), j) == old(Ptr(obj.a, obj.St(), j))
        invariant Used(obj.ptr) == old(Used(obj.ptr)) + k && |obj.free| + k == |old(obj.free)|
        invariant forall q :: IsNode(obj.a, q) ==> At(obj.St(), q) == old(At(obj.St(), q))
        invariant AllThere(obj.a, obj.St(), index, n)
        invariant Wrote(obj.a, old(obj.St()), obj.St()) && Strayed(old(obj.St()), obj.St(), false)
      {
        ghost var s := obj.St();
        TakeOne(index, n, k, offset + k);
        WroteTrans(obj.a, old(obj.St()), s, obj.St());
        StrayedTrans(old(obj.St()), s, obj.St(), false, false);
        bmp := bmp - {offset + k};
        k := k + 1;
      }
      obj.free := bmp;
      err := EOK;
      assert offset > 0 by { FreePositive(obj.a, old(obj.St()), offset); }
    }

    /** The next block of the run is marked as used and becomes the file's. */
    method TakeOne(index: nat, n: nat, k: nat, bno: nat)
      requires Valid() && k < n && AllThere(obj.a, obj.St(), index, n) && Ptr(obj.a, obj.St(), index + k) == 0 &&
               bno in obj.free
      modifies obj
      ensures Valid() && obj.free == old(obj.free) - {bno} && obj.disk.Keys == old(obj.disk.Keys) &&
              obj.blocks == old(obj.blocks)
      ensures forall j :: Ptr(obj.a, obj.St(), j) == if j == index + k then bno else old(Ptr(obj.a, obj.St(), j))
      ensures Used(obj.ptr) == old(Used(obj.ptr)) + 1
      ensures forall q :: IsNode(obj.a, q) ==> At(obj.St(), q) == old(At(obj.St(), q))
      ensures AllThere(obj.a, obj.St(), index, n)
      ensures Wrote(obj.a, old(obj.St()), obj.St()) && Strayed(old(obj.St()), obj.St(), false)
    {
      hide Limit, Ok, Looked, Used, CellIndexed, At, Ptr, PathOf, ParentReady, Wrote, Strayed, Strands, Missing;
      ghost var s := obj.St();
      var err, c := obj.Get(index + k);
      ghost var t := obj.St();
      LookedPtr(obj.a, s, t);
      LookedThere(obj.a, s, t, index, n);
      LookedKeys(obj.a, s, t);
      obj.TakeFree(c, bno, index + k);
      TakenPtr(obj.a, t, obj.St(), index + k, bno, index, n);
      PathIsLeaf(obj.a, index + k);
      StoredNodes(obj.a, s, t, index + k, bno, obj.St());
      StoredWrote(obj.a, t, PathOf(obj.a, index + k), bno, t.free - {bno});
      WroteTrans(obj.a, s, t, obj.St());
      StrayedTrans(s, t, obj.St(), false, false);
    }

    /** What a write has achieved since the state it started in. */
    ghost predicate Progress(s0: State, d0: map<nat, seq<Byte>>, block: nat, buff: seq<seq<Byte>>, i: nat)
      reads this, obj
    {
      Valid() && Done(obj.a, s0, d0, obj.St(), data, block, buff, i) && Strayed(s0, obj.St(), false)
    }

    /** Writes blocks i up to j of the buffer, which the file has in one run. */
    method FlushRun(block: nat, buff: seq<seq<Byte>>, i: nat, j: nat, ghost h: nat, ghost first: nat,
                    ghost s0: State, ghost d0: map<nat, seq<Byte>>) returns (err: int)
      requires Progress(s0, d0, block, buff, i) && i < j <= |buff| && first > 0 &&
               InRow(obj.a, obj.St(), block + i, j - i, first)
      requires forall k :: 0 <= k < |buff| ==> |buff[k]| == 4 * obj.a
      requires Paid(obj.a, s0, obj.St(), block, i, h, |buff|) && j <= h
      modifies this`data, obj
      ensures Valid() && err == EOK && obj.Excess() == old(obj.Excess()) && Looked(obj.a, old(obj.St()), obj.St())
      ensures Progress(s0, d0, block, buff, j)
      ensures Paid(obj.a, s0, obj.St(), block, j, h, |buff|)
    {
      hide Ok, Ptr, Looked, Done, DataOk, Limit, PathOf, Put, Strayed, NodesThere, Paid;
      ghost var s, d := obj.St(), data;
      assert Ptr(obj.a, s, block + i) == first;
      DoneWrite(obj.a, s0, d0, s, d, block, buff, i, j, first);
      PaidReached(obj.a, s0, s, block, i, h, |buff|, block + i);
      err := PutRun(block + i, buff[i..j]);
      LookedKeys(obj.a, s, obj.St());
      DataStill(obj.a, s.disk, obj.disk, data);
      DoneLooked(obj.a, s0, d0, s, data, block, buff, j, obj.St());
      StrayedTrans(s0, s, obj.St(), false, false);
      PaidRun(obj.a, s0, s, obj.St(), block, i, j, h, |buff|);
    }

    /** Looks a block up and writes it and those after it, from where it is on disk. */
    method PutRun(index: nat, bufs: seq<seq<Byte>>) returns (err: int)
      requires obj.a > 0 && Ok(obj.a, obj.St()) && obj.dead == map[]
      modifies this`data, obj
      ensures err <= 0 && Ok(obj.a, obj.St()) && obj.Excess() == old(obj.Excess()) &&
              Looked(obj.a, old(obj.St()), obj.St())
      ensures err == EOK ==> Strayed(old(obj.St()), obj.St(), false)
      ensures data == if err == EOK then Put(old(data), old(Ptr(obj.a, obj.St(), index)), bufs) else old(data)
      ensures old(index < Limit(obj.a) && NodesThere(obj.a, obj.St(), index)) ==>
              err == EOK && obj.ptr == old(obj.ptr) && obj.free == old(obj.free)
    {
      hide Ok, Ptr, Looked, Limit, PathOf, Put, Strayed, Strands, Missing;
      ghost var s := obj.St();
      var c;
      err, c := obj.Get(index);
      if err < 0 {
        return;
      }
      LookedPtr(obj.a, s, obj.St());
      LookedKeys(obj.a, s, obj.St());
      PointsValue(c, index);
      data := Put(data, obj.Value(c), bufs);
    }

    /** Creates and writes one stretch of the missing blocks i up to j. */
    method FillStretch(block: nat, buff: seq<seq<Byte>>, i: nat, j: nat, hint: nat, ghost s0: State,
                       ghost d0: map<nat, seq<Byte>>) returns (err: int, k: nat)
      requires Paid(obj.a, s0, obj.St(), block, i, j, |buff|)
      requires Progress(s0, d0, block, buff, i) && i < j <= |buff|
      requires AllThere(obj.a, obj.St(), block + i, j - i) && AllHoles(obj.a, obj.St(), block + i, j - i)
      requires forall k :: 0 <= k < |buff| ==> |buff[k]| == 4 * obj.a
      modifies this`data, obj
      ensures Valid() && err <= 0
      ensures err < 0 ==> WriteShort(obj.a, s0, block, |buff|) || hint != 0
      ensures err == EOK ==> i + k <= j && Paid(obj.a, s0, obj.St(), block, i + k, j, |buff|)
      ensures err == EOK ==> 0 < k <= j - i && Progress(s0, d0, block, buff, i + k) && obj.Excess() == old(obj.Excess())
      ensures err == EOK ==>
              AllThere(obj.a, obj.St(), block + i, j - i) && AllHoles(obj.a, obj.St(), block + i + k, j - i - k)
    {
      hide Ok, Ptr, Looked, Done, DataOk, Limit, PathOf, Used, Weight, NodesThere, Put, Strayed, Wrote,
           Paid, WriteShort;
      ghost var s := obj.St();
      err, k := Create(block + i, j - i, hint);
      if err < 0 {
        if hint == 0 {
          PaidOut(obj.a, s0, s, block, i, j, |buff|);
        }
        return;
      }
      ghost var t := obj.St();
      ghost var first :| first > 0 && InRow(obj.a, t, block + i, k, first) &&
          forall b :: first <= b < first + k ==> b in s.free;
      obj.blocks := obj.blocks + k * obj.sectors;
      WeightSum(obj.sectors, Used(s.ptr), k);
      assert Ptr(obj.a, t, block + i) == first;
      DoneFill(obj.a, s0, d0, s, data, block, buff, i, i + k, first, t);
      PaidFill(obj.a, s0, s, t, block, i, k, j, |buff|);
      err := PutRun(block + i, buff[i..i + k]);
      ghost var u := obj.St();
      PaidRun(obj.a, s0, t, u, block, i + k, i + k, j, |buff|);
      LookedPtr(obj.a, t, u);
      LookedKeys(obj.a, t, u);
      LookedThere(obj.a, t, u, block + i, j - i);
      DoneLooked(obj.a, s0, d0, t, data, block, buff, i + k, u);
      DataStill(obj.a, t.disk, obj.disk, data);
      StrayedTrans(s0, s, t, false, false);
      if err == EOK {
        StrayedTrans(s0, t, u, false, false);
      }
    }

    lemma PointsValue(c: Cell, k: nat)
      requires obj.a > 0 && k < Limit(obj.a) && obj.Points(c, k) && obj.dead == map[]
      ensures CellIn(c, obj.block, obj.ind) && obj.Value(c) == Ptr(obj.a, obj.St(), k)
    {
    }

    method FillHoles(block: nat, buff: seq<seq<Byte>>, from: nat, j: nat, hint: nat, ghost s0: State,
                     ghost d0: map<nat, seq<Byte>>) returns (err: int)
      requires Paid(obj.a, s0, obj.St(), block, from, j, |buff|)
      requires Progress(s0, d0, block, buff, from) && from <= j <= |buff|
      requires AllThere(obj.a, obj.St(), block + from, j - from) && AllHoles(obj.a, obj.St(), block + from, j - from)
      requires forall k :: 0 <= k < |buff| ==> |buff[k]| == 4 * obj.a
      modifies this`data, obj
      ensures Valid() && err <= 0
      ensures err < 0 ==> WriteShort(obj.a, s0, block, |buff|) || hint != 0
      ensures err == EOK ==> Paid(obj.a, s0, obj.St(), block, j, j, |buff|)
      ensures err == EOK ==> Progress(s0, d0, block, buff, j) && obj.Excess() == old(obj.Excess())
    {
      hide Ok, Ptr, Looked, Done, DataOk, Limit, PathOf, Used, Weight, NodesThere, Strayed, Paid, WriteShort;
      err := EOK;
      var i := from;
      while i < j
        invariant from <= i <= j && Progress(s0, d0, block, buff, i) && obj.Excess() == old(obj.Excess())
        invariant AllThere(obj.a, obj.St(), block + i, j - i) && AllHoles(obj.a, obj.St(), block + i, j - i) &&
                  err == EOK
        invariant Paid(obj.a, s0, obj.St(), block, i, j, |buff|)
      {
        var k;
        err, k := FillStretch(block, buff, i, j, hint, s0, d0);
        if err < 0 {
          return;
        }
        i := i + k;
      }
    }

    /** Looks up one block; progress made so far stays. */
    method Look(block: nat, buff: seq<seq<Byte>>, i: nat, j: nat, ghost s0: State, ghost d0: map<nat, seq<Byte>>)
        returns (err: int, bno: nat)
      requires Progress(s0, d0, block, buff, i) && Paid(obj.a, s0, obj.St(), block, i, j, |buff|) && j < |buff|
      modifies obj
      ensures err == EOK ==> Paid(obj.a, s0, obj.St(), block, i, j + 1, |buff|)
      ensures err < 0 ==> WriteShort(obj.a, s0, block, |buff|)
      ensures err <= 0 && Valid() && Looked(obj.a, old(obj.St()), obj.St()) && obj.Excess() == old(obj.Excess())
      ensures err == EOK ==> Progress(s0, d0, block, buff, i)
      ensures forall k :: Ptr(obj.a, obj.St(), k) == old(Ptr(obj.a, obj.St(), k))
      ensures err == EOK ==> bno == Ptr(obj.a, obj.St(), block + j) && AllThere(obj.a, obj.St(), block + j, 1)
    {
      hide Ok, Ptr, Looked, Done, DataOk, Limit, PathOf, Used, Weight, NodesThere, Strayed, Strands, Missing, Paid,
           WriteShort, At, OnWay;
      ghost var s := obj.St();
      var c;
      err, c := obj.Get(block + j);
      assert Got(obj.a, s, obj.St(), block + j, err == EOK);
      bno := 0;
      LookedPtr(obj.a, s, obj.St());
      PaidLook(obj.a, s0, s, obj.St(), block, i, j, |buff|, err == EOK);
      LookedKeys(obj.a, s, obj.St());
      DataStill(obj.a, s.disk, obj.disk, data);
      DoneLooked(obj.a, s0, d0, s, data, block, buff, i, obj.St());
      if err == EOK {
        StrayedTrans(s0, s, obj.St(), false, false);
        PointsValue(c, block + j);
        bno := obj.Value(c);
      }
    }

    /** The missing blocks from i on, up to the next that is there. */
    method ScanHoles(block: nat, buff: seq<seq<Byte>>, i: nat, ghost s0: State, ghost d0: map<nat, seq<Byte>>)
        returns (err: int, j: nat)
      requires Progress(s0, d0, block, buff, i) && i < |buff| && Paid(obj.a, s0, obj.St(), block, i, i + 1, |buff|)
      requires AllThere(obj.a, obj.St(), block + i, 1) && AllHoles(obj.a, obj.St(), block + i, 1)
      modifies obj
      ensures err <= 0 && Valid() && obj.Excess() == old(obj.Excess())
      ensures err < 0 ==> WriteShort(obj.a, s0, block, |buff|)
      ensures err == EOK ==> i < j <= |buff| && Paid(obj.a, s0, obj.St(), block, i, j, |buff|)
      ensures err == EOK ==>
              Progress(s0, d0, block, buff, i) && i < j <= |buff| && AllThere(obj.a, obj.St(), block + i, j - i) &&
              AllHoles(obj.a, obj.St(), block + i, j - i)
    {
      hide Ok, Ptr, Looked, Done, DataOk, Limit, PathOf, Used, Weight, NodesThere, Strayed, Paid, WriteShort;
      err, j := EOK, i + 1;
      while j < |buff|
        invariant i < j <= |buff| && Progress(s0, d0, block, buff, i) && obj.Excess() == old(obj.Excess()) && err == EOK
        invariant AllThere(obj.a, obj.St(), block + i, j - i) && AllHoles(obj.a, obj.St(), block + i, j - i)
        invariant Paid(obj.a, s0, obj.St(), block, i, j, |buff|)
      {
        ghost var s := obj.St();
        var bno;
        err, bno := Look(block, buff, i, j, s0, d0);
        LookedThere(obj.a, s, obj.St(), block + i, j - i);
        if err < 0 {
          return;
        }
        if bno != 0 {
          PaidLess(obj.a, s0, obj.St(), block, i, j, j + 1, |buff|);
          return;
        }
        j := j + 1;
      }
    }

    /** One round of the hole branch of Sync: what is pending is written, then the hole is filled. */
    method PassHole(block: nat, buff: seq<seq<Byte>>, i: nat, j: nat, hint: nat, ghost first: nat,
                    ghost s0: State, ghost d0: map<nat, seq<Byte>>) returns (err: int, next: nat)
      requires Progress(s0, d0, block, buff, i) && i <= j < |buff|
      requires i < j ==> first > 0 && InRow(obj.a, obj.St(), block + i, j - i, first)
      requires AllThere(obj.a, obj.St(), block + j, 1) && Ptr(obj.a, obj.St(), block + j) == 0
      requires forall k :: 0 <= k < |buff| ==> |buff[k]| == 4 * obj.a
      requires Paid(obj.a, s0, obj.St(), block, i, j + 1, |buff|)
      modifies this`data, obj
      ensures err <= 0 && Valid()
      ensures err < 0 ==> WriteShort(obj.a, s0, block, |buff|) || hint != 0
      ensures err == EOK ==> Paid(obj.a, s0, obj.St(), block, next, next, |buff|)
      ensures err == EOK ==>
              j < next <= |buff| && Progress(s0, d0, block, buff, next) && obj.Excess() == old(obj.Excess())
    {
      hide Ok, Ptr, Looked, Done, DataOk, Limit, PathOf, Used, Weight, NodesThere, Strayed, Paid, WriteShort;
      ghost var s := obj.St();
      err := EOK;
      next := j;
      if i < j {
        err := FlushRun(block, buff, i, j, j + 1, first, s0, d0);
        LookedPtr(obj.a, s, obj.St());
        LookedThere(obj.a, s, obj.St(), block + j, 1);
        if err < 0 {
          return;
        }
      }
      err, next := ScanHoles(block, buff, j, s0, d0);
      if err < 0 {
        return;
      }
      err := FillHoles(block, buff, j, next, hint, s0, d0);
    }

    /** ext2_block_sync: the blocks of the buffer, from `block` on, as if each had been written alone. */
    method Sync(block: nat, buff: seq<seq<Byte>>) returns (err: int)
      requires Valid() && forall k :: 0 <= k < |buff| ==> |buff[k]| == 4 * obj.a
      modifies this`data, obj
      ensures err < 0 ==> old(WriteShort(obj.a, obj.St(), block, |buff|) || Hinted(obj.a, obj.St(), block, |buff|))
      ensures err == EOK ==> !old(WriteShort(obj.a, obj.St(), block, |buff|))
      ensures err == EOK ==> Paid(obj.a, old(obj.St()), obj.St(), block, |buff|, |buff|, |buff|)
      ensures err == EOK ==> forall k :: block <= k < block + |buff| ==> Ptr(obj.a, obj.St(), k) != 0
      ensures err == EOK && |buff| > 0 ==>
              |obj.free| == |old(obj.free)| - |old(Lacking(obj.a, obj.St(), block, block + |buff|))| -
                            |old(Holes(obj.a, obj.St(), block, block + |buff|))|
      ensures old(forall k :: block <= k < block + |buff| ==> Ptr(obj.a, obj.St(), k) != 0) ==> err == EOK
      ensures Valid() && err <= 0
      ensures err == EOK ==>
              Done(obj.a, old(obj.St()), old(data), obj.St(), data, block, buff, |buff|) &&
              obj.Excess() == old(obj.Excess())
      ensures err == EOK ==> Strayed(old(obj.St()), obj.St(), false)
      ensures err == EOK ==> forall b :: b in old(obj.disk) ==>
                b in obj.disk && b in old(data) && b in data &&
                WrittenAs(obj.a, old(obj.St()), old(data), obj.St(), data, block, block + |buff|, b)
      ensures err == EOK ==> forall b :: b in old(obj.disk) && b != 0 && b !in old(Total(obj.free, obj.ptr)) ==>
                obj.disk[b] == old(obj.disk)[b] && data[b] == old(data)[b]
    {
      hide WriteShort, Hinted, Covered, Holes, Lacking, Ptr;
      ghost var n := |buff|;
      if forall k :: block <= k < block + n ==> Ptr(obj.a, obj.St(), k) != 0 {
        MappedWrites(obj.a, obj.St(), block, n);
      }
      err := SyncBlocks(block, buff);
      if err == EOK {
        if n > 0 {
          PaidAll(obj.a, old(obj.St()), obj.St(), block, n);
        }
        ghost var s0, d0 := old(obj.St()), old(data);
        forall b | b in s0.disk
          ensures b in obj.disk && b in d0 && b in data &&
                  WrittenAs(obj.a, s0, d0, obj.St(), data, block, block + |buff|, b)
        {
          DoneWritten(obj.a, s0, d0, obj.St(), data, block, buff, |buff|, b);
        }
        hide WrittenAs;
        forall b | b in s0.disk && b != 0 && b !in Total(s0.free, s0.ptr)
          ensures obj.disk[b] == s0.disk[b] && data[b] == d0[b]
        {
          ForeignKept(obj.a, s0, d0, obj.St(), data, block, buff, |buff|, b);
        }
      }
    }

    method SyncBlocks(block: nat, buff: seq<seq<Byte>>) returns (err: int)
      requires Valid() && forall k :: 0 <= k < |buff| ==> |buff[k]| == 4 * obj.a
      modifies this`data, obj
      ensures err < 0 ==> old(WriteShort(obj.a, obj.St(), block, |buff|) || Hinted(obj.a, obj.St(), block, |buff|))
      ensures err == EOK ==> !old(WriteShort(obj.a, obj.St(), block, |buff|))
      ensures err == EOK ==> Paid(obj.a, old(obj.St()), obj.St(), block, |buff|, |buff|, |buff|)
      ensures Valid() && err <= 0
      ensures err == EOK ==>
              Done(obj.a, old(obj.St()), old(data), obj.St(), data, block, buff, |buff|) &&
              obj.Excess() == old(obj.Excess())
      ensures err == EOK ==> Strayed(old(obj.St()), obj.St(), false)
    {
      hide Ok, Ptr, Looked, Done, DataOk, Limit, PathOf, Used, Weight, NodesThere, Strayed, Paid, WriteShort, Hinted;
      ghost var s0, d0, first: nat := obj.St(), data, 0;
      DoneNothing(obj.a, s0, d0, block, buff);
      PaidNothing(obj.a, s0, block, |buff|);
      SameWrote(obj.a, s0);
      var lbno: nat, i: nat, j: nat := 0, 0, 0;
      while j < |buff|
        invariant i <= j <= |buff| && Progress(s0, d0, block, buff, i) && obj.Excess() == old(obj.Excess())
        invariant lbno == 0 <==> i == j
        invariant Paid(obj.a, s0, obj.St(), block, i, j, |buff|)
        invariant i < j ==> first > 0 && lbno == first + (j - i) - 1 && InRow(obj.a, obj.St(), block + i, j - i, first)
      {
        var bno;
        err, bno := Look(block, buff, i, j, s0, d0);
        if err < 0 {
          return;
        }
        if bno == 0 {
          if lbno != 0 {
            PaidHints(obj.a, s0, obj.St(), block, i, j, |buff|);
          }
          err, j := PassHole(block, buff, i, j, lbno, first, s0, d0);
          if err < 0 {
            return;
          }
          i, lbno := j, 0;
        } else if lbno == 0 || bno == lbno + 1 {
          first := if lbno == 0 then bno else first;
          lbno := bno;
          j := j + 1;
        } else {
          ghost var s := obj.St();
          err := FlushRun(block, buff, i, j, j + 1, first, s0, d0);
          LookedPtr(obj.a, s, obj.St());
          if err < 0 {
            return;
          }
          lbno, first := bno, bno;
          i, j := j, j + 1;
        }
      }
      err := EOK;
      if i < j {
        err := FlushRun(block, buff, i, j, j, first, s0, d0);
      }
      if |buff| > 0 {
        PaidAll(obj.a, s0, obj.St(), block, |buff|);
      } else {
        NothingToWrite(obj.a, s0, block);
      }
    }

    /** The pointer of a block, and no change that matters. */
    method Find(index: nat, ghost s0: State, ghost lo: nat, ghost hi: nat) returns (err: int, bno: nat)
      requires Valid() && lo <= index < hi && Covered(obj.a, s0, obj.St(), lo, index, hi, 0)
      modifies obj
      ensures err == EOK ==> Covered(obj.a, s0, obj.St(), lo, index + 1, hi, 0)
      ensures err < 0 ==> Short(obj.a, s0, lo, hi, 0)
      ensures err <= 0 && Valid() && Seen(obj.a, old(obj.St()), obj.St(), err == EOK) &&
              obj.Excess() == old(obj.Excess())
      ensures err == EOK ==> bno == old(Ptr(obj.a, obj.St(), index))
    {
      hide Ok, Ptr, Looked, DataOk, Limit, PathOf, Used, Weight, NodesThere, Strayed, Strands, Missing, Covered, Short,
           OnWay, At;
      ghost var s := obj.St();
      var c;
      err, c := obj.Get(index);
      assert Got(obj.a, s, obj.St(), index, err == EOK);
      CoveredNext(obj.a, s0, s, obj.St(), lo, index, hi, 0, err == EOK);
      bno := 0;
      LookedPtr(obj.a, s, obj.St());
      LookedKeys(obj.a, s, obj.St());
      DataStill(obj.a, s.disk, obj.disk, data);
      if err == EOK {
        PointsValue(c, index);
        bno := obj.Value(c);
      }
    }

    /** ext2_block_init: the bytes of a block, zeros where there is none. */
    method BlockInit(index: nat, ghost s0: State, ghost lo: nat, ghost hi: nat) returns (err: int, buf: seq<Byte>)
      requires Valid() && lo <= index < hi && Covered(obj.a, s0, obj.St(), lo, index, hi, 0)
      modifies obj
      ensures err == EOK ==> Covered(obj.a, s0, obj.St(), lo, index + 1, hi, 0)
      ensures err < 0 ==> Short(obj.a, s0, lo, hi, 0)
      ensures err <= 0 && Valid() && Seen(obj.a, old(obj.St()), obj.St(), err == EOK) &&
              obj.Excess() == old(obj.Excess())
      ensures err == EOK ==> buf == old(Shown(obj.a, obj.St(), data, index))
    {
      ghost var s := obj.St();
      PtrHasData(obj.a, s, data, index);
      hide Ok, Ptr, Looked, Seen, DataOk, Limit, PathOf, Used, Weight, NodesThere, Covered, Short;
      var bno;
      err, bno := Find(index, s0, lo, hi);
      if err < 0 || bno == 0 {
        buf := seq(4 * obj.a, i => 0);
      } else {
        buf := data[bno];
      }
    }

    /** A block and those right after it on disk, at most `most` of them and none from `end` on. */
    method FindRun(block: nat, end: nat, most: nat, ghost s0: State, ghost lo: nat, ghost hi: nat)
        returns (err: int, first: nat, n: nat)
      requires Valid() && block < end && most > 0 && lo <= block && end <= hi
      requires Covered(obj.a, s0, obj.St(), lo, block, hi, 0)
      modifies obj
      ensures err == EOK ==> Covered(obj.a, s0, obj.St(), lo, block + n, hi, 0)
      ensures err < 0 ==> Short(obj.a, s0, lo, hi, 0)
      ensures err <= 0 && Valid() && Seen(obj.a, old(obj.St()), obj.St(), err == EOK) &&
              obj.Excess() == old(obj.Excess())
      ensures err == EOK ==> 1 <= n <= most && block + n <= end && first == old(Ptr(obj.a, obj.St(), block))
      ensures err == EOK && first == 0 ==> n == 1
      ensures err == EOK && first != 0 ==> InRow(obj.a, old(obj.St()), block, n, first)
    {
      hide Ok, Ptr, Looked, Seen, DataOk, Limit, PathOf, Used, Weight, NodesThere, Covered, Short;
      ghost var s := obj.St();
      n := 1;
      err, first := Find(block, s0, lo, hi);
      if err < 0 || first == 0 {
        return;
      }
      SeenLooked(obj.a, s, obj.St(), true);
      LookedPtr(obj.a, s, obj.St());
      while block + n < end && n + 1 <= most
        invariant 1 <= n <= most && block + n <= end && Valid() && Seen(obj.a, s, obj.St(), true) &&
                  obj.Excess() == old(obj.Excess())
        invariant InRow(obj.a, s, block, n, first) && err == EOK
        invariant Covered(obj.a, s0, obj.St(), lo, block + n, hi, 0)
      {
        ghost var t := obj.St();
        SeenLooked(obj.a, s, t, true);
        LookedPtr(obj.a, s, t);
        var bno;
        err, bno := Find(block + n, s0, lo, hi);
        SeenTrans(obj.a, s, t, obj.St(), err == EOK);
        if err < 0 {
          return;
        }
        if bno != first + n {
          CoveredLess(obj.a, s0, obj.St(), lo, block + n, block + n + 1, hi, 0);
          break;
        }
        n := n + 1;
      }
    }

    /** n blocks from the disk into the buffer. */
    method CopyRun(buff: array<Byte>, at: nat, first: nat, n: nat)
      requires obj.a > 0 && at + Mul(n, 4 * obj.a) <= buff.Length
      requires forall b :: first <= b < first + n ==> b in data && |data[b]| == 4 * obj.a
      modifies buff
      ensures forall y: nat :: y < Mul(n, 4 * obj.a) ==>
                High(y, 4 * obj.a) < n && Low(y, 4 * obj.a) < 4 * obj.a &&
                buff[at + y] == data[first + High(y, 4 * obj.a)][Low(y, 4 * obj.a)]
      ensures buff[..at] == old(buff[..at]) && Beyond(buff[..], old(buff[..]), at + Mul(n, 4 * obj.a))
    {
      var bs := 4 * obj.a;
      forall y: nat | y < Mul(n, bs) ensures High(y, bs) < n && Low(y, bs) < bs {
        Within(y, bs, n);
        Split(y, bs);
      }
      hide Mul, High, Low;
      forall i | at <= i < at + Mul(n, bs) {
        buff[i] := data[first + High(i - at, bs)][Low(i - at, bs)];
      }
    }

    /** One round of the loop of FileRead: a missing block, or a run of blocks. */
    method ReadNext(block: nat, end: nat, most: nat, buff: array<Byte>, l: nat, ghost offs: nat, ghost s0: State,
                    ghost lo: nat, ghost hi: nat) returns (err: int, n: nat)
      requires Valid() && block < end && most > 0 && Seen(obj.a, s0, obj.St(), true) && AllBlocks(obj.a, s0, data)
      requires lo <= block && end <= hi && Covered(obj.a, s0, obj.St(), lo, block, hi, 0)
      requires l + Mul(end - block, 4 * obj.a) <= buff.Length && offs + l == Pair(block, 0, 4 * obj.a)
      requires Read(obj.a, s0, data, offs, buff[..], l)
      modifies obj, buff
      ensures err == EOK ==> Covered(obj.a, s0, obj.St(), lo, block + n, hi, 0)
      ensures err < 0 ==> Short(obj.a, s0, lo, hi, 0)
      ensures err <= 0 && Valid() && Seen(obj.a, s0, obj.St(), err == EOK) && obj.Excess() == old(obj.Excess())
      ensures err == EOK ==> 1 <= n && block + n <= end && l + Mul(n, 4 * obj.a) <= buff.Length
      ensures err == EOK ==> Read(obj.a, s0, data, offs, buff[..], l + Mul(n, 4 * obj.a))
      ensures err == EOK ==> Beyond(buff[..], old(buff[..]), l + Mul(n, 4 * obj.a))
    {
      hide Ok, Ptr, Looked, Seen, DataOk, Limit, PathOf, Used, Weight, NodesThere, Mul, High, Low, Pair, AllBlocks,
           Shown, Read, Beyond, Covered, Short;
      ghost var s := obj.St();
      SeenLooked(obj.a, s0, s, true);
      LookedPtr(obj.a, s0, s);
      RunHasData(obj.a, s, data);
      var first;
      err, first, n := FindRun(block, end, most, s0, lo, hi);
      SeenTrans(obj.a, s0, s, obj.St(), err == EOK);
      if err < 0 {
        return;
      }
      MulMono(n, end - block, 4 * obj.a);
      CopyFound(block, n, first, buff, l, offs, s0);
    }

    /** What FindRun found, copied: zeros for a missing block, the blocks of a run. */
    method CopyFound(block: nat, n: nat, first: nat, buff: array<Byte>, l: nat, ghost offs: nat, ghost s0: State)
      requires obj.a > 0 && AllBlocks(obj.a, s0, data) && first == Ptr(obj.a, s0, block) && 0 < n
      requires if first == 0 then n == 1 else InRow(obj.a, s0, block, n, first)
      requires forall b :: first != 0 && first <= b < first + n ==> b in data && |data[b]| == 4 * obj.a
      requires l + Mul(n, 4 * obj.a) <= buff.Length && offs + l == Pair(block, 0, 4 * obj.a)
      requires Read(obj.a, s0, data, offs, buff[..], l)
      modifies buff
      ensures Read(obj.a, s0, data, offs, buff[..], l + Mul(n, 4 * obj.a))
      ensures Beyond(buff[..], old(buff[..]), l + Mul(n, 4 * obj.a))
    {
      hide Ok, Ptr, DataOk, Limit, PathOf, Mul, High, Low, Pair, AllBlocks;
      ghost var before := buff[..];
      if first == 0 {
        OneBlock(4 * obj.a);
        CopyInto(buff, l, seq(4 * obj.a, i => 0));
        assert buff[..][..l] == before[..l];
        assert Shown(obj.a, s0, data, block) == Zeros(obj.a);
        ReadPiece(obj.a, s0, data, offs, before, buff[..], l, 4 * obj.a, block, 0);
      } else {
        CopyRun(buff, l, first, n);
        assert buff[..][..l] == before[..l];
        RunShown(obj.a, s0, data, block, n, first, buff[..], l);
        ReadRun(obj.a, s0, data, offs, before, buff[..], l, n, block);
      }
    }

    /** The bytes of a block from `from` on, as many as are wanted. */
    method ReadPart(block: nat, from: nat, n: nat, buff: array<Byte>, l: nat, ghost offs: nat, ghost s0: State,
                    ghost lo: nat, ghost hi: nat) returns (err: int)
      requires Valid() && Seen(obj.a, s0, obj.St(), true) && AllBlocks(obj.a, s0, data)
      requires lo <= block < hi && Covered(obj.a, s0, obj.St(), lo, block, hi, 0)
      requires l + n <= buff.Length && from + n <= 4 * obj.a && offs + l == Pair(block, from, 4 * obj.a)
      requires Read(obj.a, s0, data, offs, buff[..], l)
      modifies obj, buff
      ensures err == EOK ==> Covered(obj.a, s0, obj.St(), lo, block + 1, hi, 0)
      ensures err < 0 ==> Short(obj.a, s0, lo, hi, 0)
      ensures err <= 0 && Valid() && Seen(obj.a, s0, obj.St(), err == EOK) && obj.Excess() == old(obj.Excess())
      ensures err == EOK ==> Read(obj.a, s0, data, offs, buff[..], l + n) && Beyond(buff[..], old(buff[..]), l + n)
    {
      hide Ok, Ptr, Looked, Seen, DataOk, Limit, PathOf, Used, Weight, NodesThere, Mul, High, Low, Pair, Shown,
           Covered, Short;
      ghost var s, before := obj.St(), buff[..];
      SeenLooked(obj.a, s0, s, true);
      LookedShown(obj.a, s0, s, data);
      var buf;
      err, buf := BlockInit(block, s0, lo, hi);
      SeenTrans(obj.a, s0, s, obj.St(), err == EOK);
      if err < 0 {
        return;
      }
      CopyInto(buff, l, buf[from..from + n]);
      assert buff[..][..l] == before[..l];
      assert buff[..][l..l + n] == buff[l..l + n];
      ReadPiece(obj.a, s0, data, offs, before, buff[..], l, n, block, from);
    }

    /** The whole blocks of a read, in runs of at most 64 KiB. */
    method ReadWhole(offs: nat, len: nat, from: nat, at: nat, buff: array<Byte>, ghost s0: State, ghost lo: nat,
                     ghost hi: nat) returns (err: int, block: nat, l: nat)
      requires Valid() && Seen(obj.a, s0, obj.St(), true) && AllBlocks(obj.a, s0, data) && len <= buff.Length &&
               at <= len
      requires lo <= from == Ends(offs, at, 4 * obj.a) && High(offs + len, 4 * obj.a) <= hi
      requires Covered(obj.a, s0, obj.St(), lo, from, hi, 0)
      requires offs + at == Pair(from, 0, 4 * obj.a) || (at == len && High(offs + len, 4 * obj.a) <= from)
      requires Read(obj.a, s0, data, offs, buff[..], at)
      modifies obj, buff
      ensures err == EOK ==> lo <= block == Ends(offs, l, 4 * obj.a) && Covered(obj.a, s0, obj.St(), lo, block, hi, 0)
      ensures err < 0 ==> Short(obj.a, s0, lo, hi, 0)
      ensures err <= 0 && Valid() && Seen(obj.a, s0, obj.St(), err == EOK) && obj.Excess() == old(obj.Excess())
      ensures err == EOK ==>
              at <= l <= len && High(offs + len, 4 * obj.a) <= block &&
              (l == len || offs + l == Pair(block, 0, 4 * obj.a))
      ensures err == EOK ==> Read(obj.a, s0, data, offs, buff[..], l) && Beyond(buff[..], old(buff[..]), l)
    {
      hide Ok, Ptr, Looked, Seen, DataOk, Limit, PathOf, Used, Weight, NodesThere, Mul, High, Low, Pair, Shown,
           ByteAt, AllBlocks, RunMax, Covered, Short, Ends;
      var bs := 4 * obj.a;
      block, l := from, at;
      var blkEnd := High(offs + len, bs);
      while block < blkEnd
        invariant at <= l <= len && (offs + l == Pair(block, 0, bs) || (l == len && blkEnd <= block))
        invariant Valid() && Seen(obj.a, s0, obj.St(), true) && obj.Excess() == old(obj.Excess())
        invariant Read(obj.a, s0, data, offs, buff[..], l) && Beyond(buff[..], old(buff[..]), l)
        invariant lo <= block == Ends(offs, l, bs) && Covered(obj.a, s0, obj.St(), lo, block, hi, 0)
        decreases blkEnd - block
      {
        Inside(offs, len, l, block, blkEnd, bs);
        var n;
        err, n := ReadNext(block, blkEnd, RunMax(bs), buff, l, offs, s0, lo, hi);
        if err < 0 {
          return;
        }
        NextBlock(block, n, bs);
        MulMono(n, blkEnd - block, bs);
        block := block + n;
        l := l + Mul(n, bs);
        EndsAligned(offs, l, block, bs);
      }
      err := EOK;
    }

    /** The first block of a read, if it does not start with that block or is shorter. */
    method ReadHead(offs: nat, len: nat, buff: array<Byte>, ghost s0: State, ghost hi: nat)
        returns (err: int, block: nat, l: nat)
      requires Valid() && Seen(obj.a, s0, obj.St(), true) && AllBlocks(obj.a, s0, data) && 0 < len <= buff.Length
      requires High(offs, 4 * obj.a) < hi &&
               Covered(obj.a, s0, obj.St(), High(offs, 4 * obj.a), High(offs, 4 * obj.a), hi, 0)
      requires Read(obj.a, s0, data, offs, buff[..], 0)
      modifies obj, buff
      ensures err == EOK ==> High(offs, 4 * obj.a) <= block == Ends(offs, l, 4 * obj.a) &&
                             Covered(obj.a, s0, obj.St(), High(offs, 4 * obj.a), block, hi, 0)
      ensures err < 0 ==> Short(obj.a, s0, High(offs, 4 * obj.a), hi, 0)
      ensures err <= 0 && Valid() && Seen(obj.a, s0, obj.St(), err == EOK) && obj.Excess() == old(obj.Excess())
      ensures err == EOK ==> l <= len && (offs + l == Pair(block, 0, 4 * obj.a) ||
                                          (l == len && High(offs + len, 4 * obj.a) <= block))
      ensures err == EOK ==> Read(obj.a, s0, data, offs, buff[..], l) && Beyond(buff[..], old(buff[..]), l)
    {
      BeyondAll(buff[..]);
      hide Ok, Ptr, Looked, Seen, DataOk, Limit, PathOf, Used, Weight, NodesThere, Mul, High, Low, Pair, Shown,
           ByteAt, AllBlocks, Read, Beyond, Covered, Short, Ends;
      var bs := 4 * obj.a;
      var in0;
      block, in0 := High(offs, bs), Low(offs, bs);
      Split(offs, bs);
      err, l := EOK, 0;
      if in0 != 0 || len < bs {
        l := if bs - in0 > len then len else bs - in0;
        err := ReadPart(block, in0, l, buff, 0, offs, s0, block, hi);
        if err == EOK {
          AfterHead(offs, len, l, block, in0, bs);
          EndsHead(offs, l, block, in0, bs);
          block := block + 1;
        }
      } else {
        EndsAligned(offs, 0, block, bs);
      }
    }

    /** The whole blocks of a read and the beginning of the last. */
    method ReadRest(offs: nat, len: nat, from: nat, at: nat, buff: array<Byte>, ghost s0: State, ghost lo: nat,
                    ghost hi: nat) returns (err: int)
      requires Valid() && Seen(obj.a, s0, obj.St(), true) && AllBlocks(obj.a, s0, data) && len <= buff.Length &&
               at <= len
      requires lo <= from == Ends(offs, at, 4 * obj.a) && hi == Ends(offs, len, 4 * obj.a) && len > 0
      requires Covered(obj.a, s0, obj.St(), lo, from, hi, 0)
      requires offs + at == Pair(from, 0, 4 * obj.a) || (at == len && High(offs + len, 4 * obj.a) <= from)
      requires Read(obj.a, s0, data, offs, buff[..], at)
      modifies obj, buff
      ensures err == EOK ==> Covered(obj.a, s0, obj.St(), lo, hi, hi, 0)
      ensures err < 0 ==> Short(obj.a, s0, lo, hi, 0)
      ensures err <= 0 && Valid() && Seen(obj.a, s0, obj.St(), err == EOK) && obj.Excess() == old(obj.Excess())
      ensures err == EOK ==> Read(obj.a, s0, data, offs, buff[..], len) && Beyond(buff[..], old(buff[..]), len)
    {
      hide Ok, Ptr, Looked, Seen, DataOk, Limit, PathOf, Used, Weight, NodesThere, Mul, High, Low, Pair, Shown,
           ByteAt, AllBlocks, Read, Beyond, Covered, Short, Ends;
      var bs := 4 * obj.a;
      EndsBound(offs, len, bs);
      var block, l;
      err, block, l := ReadWhole(offs, len, from, at, buff, s0, lo, hi);
      if err < 0 || l == len {
        return;
      }
      ghost var whole := buff[..];
      AtEnd(offs, len, l, block, High(offs + len, bs), bs);
      EndsTail(offs, len, l, block, bs);
      err := ReadPart(block, 0, len - l, buff, l, offs, s0, lo, hi);
      if err == EOK {
        BeyondTrans(buff[..], whole, old(buff[..]), l, len);
      }
    }

    /** How many of the bytes wanted the file has. */
    function Available(offs: nat, want: nat): nat
      reads this
    {
      if offs >= size then 0 else if want <= size - offs then want else size - offs
    }

    /**
     * _ext2_file_read: as many bytes as the file has from `offs` on, up to those wanted.  Looking up the
     * pointers may create indirect blocks, but changes nothing of the file; it succeeds exactly if there are
     * enough free blocks for that.
     */
    method FileRead(offs: nat, want: nat, buff: array<Byte>) returns (r: int)
      requires Valid() && want <= buff.Length
      modifies obj, buff
      ensures r < 0 <==> old(TooShort(obj.a, obj.St(), offs, Available(offs, want)))
      ensures r > 0 ==> |obj.free| == |old(obj.free)| -
                          |old(Lacking(obj.a, obj.St(), High(offs, 4 * obj.a), Ends(offs, r, 4 * obj.a)))|
      ensures Valid() && Seen(obj.a, old(obj.St()), obj.St(), r >= 0) && obj.Excess() == old(obj.Excess())
      ensures r >= 0 ==> r == Available(offs, want)
      ensures r >= 0 ==> AllBlocks(obj.a, old(obj.St()), data) && Read(obj.a, old(obj.St()), data, offs, buff[..], r)
      ensures r >= 0 ==> Beyond(buff[..], old(buff[..]), r)
    {
      hide Ok, Ptr, Looked, Seen, DataOk, Limit, PathOf, Used, Weight, NodesThere, Mul, High, Low, Pair, Shown,
           ByteAt, AllBlocks, Read, Beyond, Covered, Short, Ends, Lacking;
      ghost var s0 := obj.St();
      SeenSame(obj.a, s0);
      BlocksWhole(obj.a, s0, data);
      ReadNone(obj.a, s0, data, offs, buff[..]);
      BeyondAll(buff[..]);
      var bs := 4 * obj.a;
      if offs >= size {
        return 0;
      }
      var len: nat := if want > size - offs then size - offs else want;
      if len == 0 {
        return 0;
      }
      ghost var lo, hi := High(offs, bs), Ends(offs, len, bs);
      EndsBound(offs, len, bs);
      CoveredNothing(obj.a, s0, lo, hi);
      var err, block, l := ReadHead(offs, len, buff, s0, hi);
      if err < 0 {
        return err;
      }
      ghost var head := buff[..];
      err := ReadRest(offs, len, block, l, buff, s0, lo, hi);
      if err < 0 {
        return err;
      }
      BeyondTrans(buff[..], head, old(buff[..]), l, len);
      CoveredAll(obj.a, s0, obj.St(), lo, hi, 0);
      return len;
    }
  }

  /** Blocks the file has, or whose indirect blocks it has, can always be read. */
  lemma MappedReads(a: nat, s: State, offs: nat, len: nat)
    requires a > 0 && Ok(a, s) && forall k :: High(offs, 4 * a) <= k < Ends(offs, len, 4 * a) ==> Ptr(a, s, k) != 0
    ensures !TooShort(a, s, offs, len)
  {
    hide Ok, Ptr, Short, High, Ends;
    if len > 0 {
      EndsBound(offs, len, 4 * a);
      MappedCostsNothing(a, s, High(offs, 4 * a), Ends(offs, len, 4 * a));
    }
  }

  /** A file without blocks on a full device: its first block behind an indirect one is a hole that cannot be read. */
  method ReadHole(a: nat, first: seq<nat>, size: nat) returns (r: int)
    requires a > 0 && |first| == a && size > Pair(DIRECT_BLOCKS, 0, 4 * a)
    ensures r < 0
  {
    HoleTooShort(a, first);
    hide Walk, Wrote, Ok, Missing, Strands, PathOf, Limit, Looked, TooShort, Pair, At, Short, Lacking;
    var o := new Ext2Object(a, 2, map[0 := first], {}, seq(ROOT_SLOTS, i => 0), 0, map[]);
    assert o.St() == FullDevice(a, first);
    var f := new Ext2File(o, map[0 := seq(4 * a, i => 0)], size);
    var into := new Byte[1](i => 0);
    r := f.FileRead(Pair(DIRECT_BLOCKS, 0, 4 * a), 1, into);
  }

  lemma HoleTooShort(a: nat, first: seq<nat>)
    requires a > 0 && |first| == a
    ensures Ok(a, FullDevice(a, first)) && TooShort(a, FullDevice(a, first), Pair(DIRECT_BLOCKS, 0, 4 * a), 1)
  {
    hide PathOf, Ok, Lacking;
    FullDeviceStrands(a, first, first);
    MissingCount(a, FullDevice(a, first), DIRECT_BLOCKS);
    EndsHead(Pair(DIRECT_BLOCKS, 0, 4 * a), 1, DIRECT_BLOCKS, 0, 4 * a);
    Join(DIRECT_BLOCKS, 0, 4 * a);
  }

  /** Byte y of the file once the buffer is written from `block` on: the buffer's byte, or the one that was there. */
  ghost function WrittenByte(a: nat, s: State, d: map<nat, seq<Byte>>, block: nat, buff: seq<seq<Byte>>, y: nat): Byte
    requires a > 0 && AllBlocks(a, s, d) && forall k :: 0 <= k < |buff| ==> |buff[k]| == 4 * a
  {
    Split(y, 4 * a);
    var k := High(y, 4 * a);
    if block <= k < block + |buff| then buff[k - block][Low(y, 4 * a)] else ByteAt(a, s, d, y)
  }

  lemma WrittenBack(a: nat, s0: State, d0: map<nat, seq<Byte>>, s: State, d: map<nat, seq<Byte>>, block: nat,
                    buff: seq<seq<Byte>>, y: nat)
    requires a > 0 && AllBlocks(a, s0, d0) && AllBlocks(a, s, d) && forall k :: 0 <= k < |buff| ==> |buff[k]| == 4 * a
    requires Done(a, s0, d0, s, d, block, buff, |buff|)
    ensures ByteAt(a, s, d, y) == WrittenByte(a, s0, d0, block, buff, y)
  {
    hide Ptr, Shown, High, Low, Grown, Touched;
    var k := High(y, 4 * a);
    assert Shown(a, s, d, k) == if block <= k < block + |buff| then buff[k - block] else Shown(a, s0, d0, k);
  }

  /** A read cannot do after a write. */
  ghost predicate TooShortAfter(a: nat, s: State, block: nat, n: nat, offs: nat, len: nat)
    requires a > 0
  {
    len > 0 && ShortAfter(a, s, block, block + n, |Holes(a, s, block, block + n)|, High(offs, 4 * a),
                          Ends(offs, len, 4 * a))
  }

  lemma ReadAfterWrite(a: nat, s0: State, s: State, block: nat, n: nat, offs: nat, len: nat)
    requires a > 0 && Paid(a, s0, s, block, n, n, n)
    ensures TooShort(a, s, offs, len) <==> TooShortAfter(a, s0, block, n, offs, len)
    ensures block <= High(offs, 4 * a) && Ends(offs, len, 4 * a) <= block + n ==> !TooShort(a, s, offs, len)
  {
    hide High, Ends, Short, ShortAfter, Opened, Holes, Ptr;
    if len > 0 {
      var x, lo, hi := |Holes(a, s0, block, block + n)|, High(offs, 4 * a), Ends(offs, len, 4 * a);
      assert Opened(a, s0, s, block, block + n, x);
      ShortThen(a, s0, s, block, block + n, x, lo, hi);
      if block <= lo && hi <= block + n {
        EndsBound(offs, len, 4 * a);
        WrittenReads(a, s0, s, block, n, x, lo, hi);
      }
    }
  }

  lemma WrittenReads(a: nat, s0: State, s: State, block: nat, n: nat, spent: int, lo: nat, hi: nat)
    requires Opened(a, s0, s, block, block + n, spent) && block <= lo < hi <= block + n
    ensures !Short(a, s, lo, hi, 0)
  {
    hide Limit, Lacking;
    LackingAfter(a, s0, s, block, block + n, spent, lo, hi);
    LackingPart(a, s0, lo, hi, block, block + n);
    assert Lacking(a, s, lo, hi) == {};
    assert Reached(a, s, hi - 1);
  }

  /**
   * Blocks written with ext2_block_sync are what _ext2_file_read then returns, and all other bytes are as before.
   * What was written can always be read; whether more can is seen from the free blocks before.
   */
  method SyncThenRead(f: Ext2File, block: nat, buff: seq<seq<Byte>>, offs: nat, want: nat, into: array<Byte>)
      returns (err: int, r: int)
    requires f.Valid() && want <= into.Length && forall k :: 0 <= k < |buff| ==> |buff[k]| == 4 * f.obj.a
    modifies f`data, f.obj, into
    ensures f.Valid() && err <= 0
    ensures err == EOK ==> !old(WriteShort(f.obj.a, f.obj.St(), block, |buff|))
    ensures err < 0 ==>
            old(WriteShort(f.obj.a, f.obj.St(), block, |buff|) || Hinted(f.obj.a, f.obj.St(), block, |buff|))
    ensures err == EOK ==>
            (r < 0 <==> old(TooShortAfter(f.obj.a, f.obj.St(), block, |buff|, offs, f.Available(offs, want))))
    ensures err == EOK ==> block <= High(offs, 4 * f.obj.a) ==>
            Ends(offs, f.Available(offs, want), 4 * f.obj.a) <= block + |buff| ==> r >= 0
    ensures err == EOK && r >= 0 ==>
            r == f.Available(offs, want)
    ensures err == EOK && r >= 0 ==>
      AllBlocks(f.obj.a, old(f.obj.St()), old(f.data)) &&
      forall x :: 0 <= x < r ==> into[x] == WrittenByte(f.obj.a, old(f.obj.St()), old(f.data), block, buff, offs + x)
  {
    hide Ok, Ptr, Looked, Done, DataOk, Limit, PathOf, Used, Weight, NodesThere, Mul, High, Low, Pair, Shown, ByteAt,
         AllBlocks, WrittenByte, Ends, TooShort, TooShortAfter, WriteShort, Hinted, Paid;
    ghost var s0, d0 := f.obj.St(), f.data;
    BlocksWhole(f.obj.a, s0, d0);
    r := 0;
    err := f.Sync(block, buff);
    if err != EOK {
      return;
    }
    ghost var s := f.obj.St();
    ReadAfterWrite(f.obj.a, s0, s, block, |buff|, offs, f.Available(offs, want));
    r := f.FileRead(offs, want, into);
    if r >= 0 {
      forall x | 0 <= x < r ensures into[x] == WrittenByte(f.obj.a, s0, d0, block, buff, offs + x) {
        assert into[..][x] == into[x];
        WrittenBack(f.obj.a, s0, d0, s, f.data, block, buff, offs + x);
      }
    }
  }
}
