/**
 * Directories of ext2 (ext2/dir.c).
 *
 * A directory is a row of blocks, each filled by records without a gap.  A position is the byte
 * offset of a record.  Adding and removing entries changes records in place, but no live entry
 * moves; so a scan that goes on from the position a read returned sees every entry that is there
 * all the time exactly once, in ascending order, whatever is added and removed meanwhile.
 */
module Ext2Dir {
  import opened Ext2Index

  const EOK: int := 0
  const ENOENT: int := 2
  const EIO: int := 5
  const ENAMETOOLONG: int := 36
  /** sizeof(ext2_dirent_t) */
  const HEADER: nat := 8
  const MAX_NAMELEN: nat := 255
  const UINT16_MAX: nat := 0xffff

  datatype Rec = Rec(ino: nat, size: nat, name: string, kind: nat)

  /** An entry at its position. */
  datatype Entry = Entry(pos: nat, ino: nat, name: string, kind: nat)

  /** The 16-bit length of a record: it leads to the next position, or as far towards it as it can. */
  ghost predicate Reclen(offs: nat, next: nat, reclen: nat) {
    0 < reclen <= UINT16_MAX && offs + reclen <= next && (offs + reclen < next ==> reclen == UINT16_MAX)
  }

  /** Rounded up to a multiple of four: what a record with this name needs. */
  function Needed(len: nat): (n: nat)
    ensures HEADER + len <= n < HEADER + len + 4 && n % 4 == 0
  {
    (len + HEADER + 3) / 4 * 4
  }

  predicate IsLive(r: Rec) {
    r.ino != 0 && |r.name| != 0
  }

  /** Where record i of a block begins. */
  function Start(recs: seq<Rec>, i: nat): nat
    requires i <= |recs|
  {
    if i == 0 then 0 else Start(recs, i - 1) + recs[i - 1].size
  }

  ghost predicate RecOk(r: Rec) {
    HEADER + |r.name| <= r.size && r.size % 4 == 0
  }

  /** The records fill the block. */
  ghost predicate Tiles(bs: nat, recs: seq<Rec>) {
    0 < |recs| && Start(recs, |recs|) == bs && forall i :: 0 <= i < |recs| ==> RecOk(recs[i])
  }

  ghost predicate AllTile(bs: nat, blocks: seq<seq<Rec>>) {
    bs >= 1024 && bs % 4 == 0 && forall b :: 0 <= b < |blocks| ==> Tiles(bs, blocks[b])
  }

  lemma {:induction false} StartMono(recs: seq<Rec>, i: nat, j: nat)
    requires i < j <= |recs| && forall k :: 0 <= k < |recs| ==> RecOk(recs[k])
    ensures Start(recs, i) + recs[i].size <= Start(recs, j) && Start(recs, i) < Start(recs, j)
    decreases j
  {
    if i < j - 1 {
      StartMono(recs, i, j - 1);
    }
  }

  lemma {:induction false} StartSame(recs: seq<Rec>, other: seq<Rec>, i: nat)
    requires i <= |recs| && i <= |other| && forall k :: 0 <= k < i ==> recs[k].size == other[k].size
    ensures Start(recs, i) == Start(other, i)
  {
    if i > 0 {
      StartSame(recs, other, i - 1);
    }
  }

  function PosOf(bs: nat, b: nat, o: nat): nat {
    Pair(b, o, bs)
  }

  /** The entry of a record that is in use. */
  function EntryAt(bs: nat, blocks: seq<seq<Rec>>, b: nat, i: nat): Entry
    requires b < |blocks| && i < |blocks[b]|
  {
    var r := blocks[b][i];
    Entry(PosOf(bs, b, Start(blocks[b], i)), r.ino, r.name, r.kind)
  }

  /** All entries in use. */
  ghost function Live(bs: nat, blocks: seq<seq<Rec>>): set<Entry> {
    set b, i | 0 <= b < |blocks| && 0 <= i < |blocks[b]| && IsLive(blocks[b][i]) :: EntryAt(bs, blocks, b, i)
  }

  lemma Before(bs: nat, blocks: seq<seq<Rec>>, b: nat, i: nat, c: nat, j: nat)
    requires AllTile(bs, blocks) && b < |blocks| && i < |blocks[b]| && c < |blocks| && j < |blocks[c]| &&
             (b < c || (b == c && i < j))
    ensures EntryAt(bs, blocks, b, i).pos + blocks[b][i].size <= EntryAt(bs, blocks, c, j).pos
  {
    StartMono(blocks[b], i, |blocks[b]|);
    if b == c {
      StartMono(blocks[b], i, j);
    } else {
      Times(b + 1, c, bs);
      Times(b, 1, bs);
    }
  }

  // ---------------------------------------------------------------------------------------
  // Changes of one block

  function RecEntry(bs: nat, b: nat, recs: seq<Rec>, i: nat): Entry
    requires i < |recs|
  {
    Entry(PosOf(bs, b, Start(recs, i)), recs[i].ino, recs[i].name, recs[i].kind)
  }

  ghost function BlockLive(bs: nat, b: nat, recs: seq<Rec>): set<Entry> {
    set i | 0 <= i < |recs| && IsLive(recs[i]) :: RecEntry(bs, b, recs, i)
  }

  /** Entries of one block lie between its start and the next block's. */
  lemma BlockRange(bs: nat, b: nat, recs: seq<Rec>, e: Entry)
    requires bs > 0 && Tiles(bs, recs) && e in BlockLive(bs, b, recs)
    ensures PosOf(bs, b, 0) <= e.pos < PosOf(bs, b + 1, 0)
  {
    var i :| 0 <= i < |recs| && IsLive(recs[i]) && e == RecEntry(bs, b, recs, i);
    StartMono(recs, i, |recs|);
    Times(b, 1, bs);
  }

  /** The entries of a directory with one block changed. */
  lemma LiveChange(bs: nat, blocks: seq<seq<Rec>>, b: nat, recs: seq<Rec>)
    requires AllTile(bs, blocks) && b < |blocks| && Tiles(bs, recs)
    ensures AllTile(bs, blocks[b := recs])
    ensures BlockLive(bs, b, blocks[b]) <= Live(bs, blocks)
    ensures Live(bs, blocks[b := recs]) == Live(bs, blocks) - BlockLive(bs, b, blocks[b]) + BlockLive(bs, b, recs)
  {
    hide PosOf;
    var now := blocks[b := recs];
    forall e
      ensures e in Live(bs, now) <==> e in Live(bs, blocks) - BlockLive(bs, b, blocks[b]) + BlockLive(bs, b, recs)
    {
      if e in Live(bs, now) {
        var c, i :| 0 <= c < |now| && 0 <= i < |now[c]| && IsLive(now[c][i]) && e == EntryAt(bs, now, c, i);
        if c != b {
          assert e == EntryAt(bs, blocks, c, i) && e in BlockLive(bs, c, blocks[c]);
          OtherBlock(bs, blocks, b, c, e);
        }
      }
      if e in Live(bs, blocks) && e !in BlockLive(bs, b, blocks[b]) {
        var c, i :| 0 <= c < |blocks| && 0 <= i < |blocks[c]| && IsLive(blocks[c][i]) && e == EntryAt(bs, blocks, c, i);
        assert c != b && e == EntryAt(bs, now, c, i);
      }
      if e in BlockLive(bs, b, recs) {
        var i :| 0 <= i < |recs| && IsLive(recs[i]) && e == RecEntry(bs, b, recs, i);
        assert e == EntryAt(bs, now, b, i);
      }
    }
    forall e | e in BlockLive(bs, b, blocks[b]) ensures e in Live(bs, blocks) {
      var i :| 0 <= i < |blocks[b]| && IsLive(blocks[b][i]) && e == RecEntry(bs, b, blocks[b], i);
      assert e == EntryAt(bs, blocks, b, i);
    }
  }

  lemma OtherBlock(bs: nat, blocks: seq<seq<Rec>>, b: nat, c: nat, e: Entry)
    requires AllTile(bs, blocks) && b < |blocks| && c < |blocks| && b != c && e in BlockLive(bs, c, blocks[c])
    ensures e !in BlockLive(bs, b, blocks[b])
  {
    BlockRange(bs, c, blocks[c], e);
    if e in BlockLive(bs, b, blocks[b]) {
      BlockRange(bs, b, blocks[b], e);
      Times(b + 1, c, bs);
      Times(c + 1, b, bs);
    }
  }

  /** Record i is taken over by the one before it. */
  function Merged(recs: seq<Rec>, i: nat): seq<Rec>
    requires 0 < i < |recs|
  {
    recs[..i - 1] + [recs[i - 1].(size := recs[i - 1].size + recs[i].size)] + recs[i + 1..]
  }

  lemma {:induction false} MergedStart(recs: seq<Rec>, i: nat, k: nat)
    requires 0 < i < |recs| && k < |recs|
    ensures |Merged(recs, i)| == |recs| - 1 && Start(Merged(recs, i), k) == if k < i then Start(recs, k)
            else Start(recs, k + 1)
  {
    var m := Merged(recs, i);
    if k < i {
      StartSame(recs, m, k);
    } else {
      MergedStart(recs, i, k - 1);
      assert k > i ==> m[k - 1] == recs[k];
    }
  }

  lemma MergedTiles(bs: nat, recs: seq<Rec>, i: nat)
    requires Tiles(bs, recs) && 0 < i < |recs|
    ensures Tiles(bs, Merged(recs, i))
  {
    var m := Merged(recs, i);
    MergedStart(recs, i, |recs| - 1);
    forall k | 0 <= k < |m| ensures RecOk(m[k]) {
      assert m[k] == if k < i - 1 then recs[k] else if k == i - 1 then recs[k].(size := recs[k].size + recs[i].size)
             else recs[k + 1];
    }
  }

  /** The other records stay where they are. */
  lemma MergedEntry(bs: nat, b: nat, recs: seq<Rec>, i: nat, j: nat)
    requires 0 < i < |recs| && j < |recs| && j != i
    ensures var k := if j < i then j else j - 1;
            k < |Merged(recs, i)| && IsLive(Merged(recs, i)[k]) == IsLive(recs[j]) &&
            RecEntry(bs, b, Merged(recs, i), k) == RecEntry(bs, b, recs, j)
  {
    hide PosOf;
    MergedStart(recs, i, if j < i then j else j - 1);
  }

  lemma RecDistinct(bs: nat, b: nat, recs: seq<Rec>, i: nat, j: nat)
    requires Tiles(bs, recs) && i < |recs| && j < |recs| && RecEntry(bs, b, recs, i) == RecEntry(bs, b, recs, j)
    ensures i == j
  {
    if i < j {
      StartMono(recs, i, j);
    } else if j < i {
      StartMono(recs, j, i);
    }
  }

  lemma MergedLive(bs: nat, b: nat, recs: seq<Rec>, i: nat)
    requires Tiles(bs, recs) && 0 < i < |recs|
    ensures BlockLive(bs, b, Merged(recs, i)) == BlockLive(bs, b, recs) - {RecEntry(bs, b, recs, i)}
  {
    hide PosOf, RecEntry, Merged, IsLive, Tiles;
    MergedStart(recs, i, 0);
    var m := Merged(recs, i);
    forall e ensures e in BlockLive(bs, b, m) <==> e in BlockLive(bs, b, recs) && e != RecEntry(bs, b, recs, i) {
      if e in BlockLive(bs, b, m) {
        var k :| 0 <= k < |m| && IsLive(m[k]) && e == RecEntry(bs, b, m, k);
        var j := if k < i then k else k + 1;
        MergedEntry(bs, b, recs, i, j);
        if e == RecEntry(bs, b, recs, i) {
          RecDistinct(bs, b, recs, i, j);
        }
      }
      if e in BlockLive(bs, b, recs) && e != RecEntry(bs, b, recs, i) {
        var j :| 0 <= j < |recs| && IsLive(recs[j]) && e == RecEntry(bs, b, recs, j);
        MergedEntry(bs, b, recs, i, j);
      }
    }
  }

  /** The first record of a block is kept, but unused. */
  function Cleared(recs: seq<Rec>): seq<Rec>
    requires 0 < |recs|
  {
    recs[0 := recs[0].(ino := 0)]
  }

  lemma ClearedLive(bs: nat, b: nat, recs: seq<Rec>)
    requires Tiles(bs, recs)
    ensures Tiles(bs, Cleared(recs)) &&
            BlockLive(bs, b, Cleared(recs)) == BlockLive(bs, b, recs) - {RecEntry(bs, b, recs, 0)}
  {
    hide PosOf;
    var c := Cleared(recs);
    forall k | 0 <= k <= |recs| ensures Start(c, k) == Start(recs, k) {
      StartSame(recs, c, k);
    }
    forall e ensures e in BlockLive(bs, b, c) <==> e in BlockLive(bs, b, recs) && e != RecEntry(bs, b, recs, 0) {
      if e in BlockLive(bs, b, c) {
        var k :| 0 <= k < |c| && IsLive(c[k]) && e == RecEntry(bs, b, c, k);
        assert e == RecEntry(bs, b, recs, k);
        if e == RecEntry(bs, b, recs, 0) {
          RecDistinct(bs, b, recs, 0, k);
        }
      }
      if e in BlockLive(bs, b, recs) && e != RecEntry(bs, b, recs, 0) {
        var k :| 0 <= k < |recs| && IsLive(recs[k]) && e == RecEntry(bs, b, recs, k);
        assert e == RecEntry(bs, b, c, k);
      }
    }
  }

  /** How much of the last record of a block its name needs; an unused one without a name needs nothing. */
  function Kept(r: Rec): nat {
    if |r.name| == 0 then 0 else Needed(|r.name|)
  }

  /** The last record is cut to what it needs and a new one takes the rest. */
  function Extended(recs: seq<Rec>, ino: nat, name: string, kind: nat): seq<Rec>
    requires 0 < |recs| && Kept(recs[|recs| - 1]) <= recs[|recs| - 1].size
  {
    var n := |recs| - 1;
    var last := recs[n];
    var added := Rec(ino, last.size - Kept(last), name, kind);
    if |last.name| == 0 then recs[..n] + [added] else recs[..n] + [last.(size := Kept(last)), added]
  }

  /** Where the new record goes. */
  function Free(recs: seq<Rec>): nat
    requires 0 < |recs|
  {
    Start(recs, |recs| - 1) + Kept(recs[|recs| - 1])
  }

  ghost predicate HasRoom(recs: seq<Rec>, len: nat) {
    0 < |recs| && Needed(len) + Kept(recs[|recs| - 1]) <= recs[|recs| - 1].size
  }

  lemma ExtendedStart(recs: seq<Rec>, ino: nat, name: string, kind: nat, k: nat)
    requires HasRoom(recs, |name|) && k < |Extended(recs, ino, name, kind)|
    ensures Start(Extended(recs, ino, name, kind), k) == if k < |Extended(recs, ino, name, kind)| - 1
            then Start(recs, k) else Free(recs)
  {
    var x, n := Extended(recs, ino, name, kind), |recs| - 1;
    if k <= n {
      StartSame(recs, x, k);
    } else {
      StartSame(recs, x, n);
      assert x[n].size == Kept(recs[n]);
    }
  }

  lemma ExtendedTiles(bs: nat, recs: seq<Rec>, ino: nat, name: string, kind: nat)
    requires Tiles(bs, recs) && HasRoom(recs, |name|)
    ensures Tiles(bs, Extended(recs, ino, name, kind))
  {
    var x, n := Extended(recs, ino, name, kind), |recs| - 1;
    ExtendedStart(recs, ino, name, kind, |x| - 1);
    forall k | 0 <= k < |x| ensures RecOk(x[k]) {
      assert k < n ==> x[k] == recs[k];
    }
  }

  /** The records there were stay where they are. */
  lemma ExtendedEntry(bs: nat, b: nat, recs: seq<Rec>, ino: nat, name: string, kind: nat, k: nat)
    requires HasRoom(recs, |name|) && k < |Extended(recs, ino, name, kind)| - 1
    ensures var x := Extended(recs, ino, name, kind);
            k < |recs| && IsLive(x[k]) == IsLive(recs[k]) &&
            RecEntry(bs, b, x, k) == RecEntry(bs, b, recs, k)
  {
    hide PosOf, Needed;
    ExtendedStart(recs, ino, name, kind, k);
  }

  lemma ExtendedLast(bs: nat, b: nat, recs: seq<Rec>, ino: nat, name: string, kind: nat)
    requires HasRoom(recs, |name|) && ino != 0 && name != ""
    ensures var x := Extended(recs, ino, name, kind);
            IsLive(x[|x| - 1]) &&
            RecEntry(bs, b, x, |x| - 1) == Entry(PosOf(bs, b, Free(recs)), ino, name, kind)
    ensures |Extended(recs, ino, name, kind)| == |recs| ==> !IsLive(recs[|recs| - 1])
    ensures |recs| <= |Extended(recs, ino, name, kind)| <= |recs| + 1
  {
    hide PosOf, Needed;
    ExtendedStart(recs, ino, name, kind, |Extended(recs, ino, name, kind)| - 1);
  }

  lemma ExtendedLive(bs: nat, b: nat, recs: seq<Rec>, ino: nat, name: string, kind: nat)
    requires Tiles(bs, recs) && HasRoom(recs, |name|) && ino != 0 && name != ""
    ensures BlockLive(bs, b, Extended(recs, ino, name, kind))
            == BlockLive(bs, b, recs) + {Entry(PosOf(bs, b, Free(recs)), ino, name, kind)}
  {
    hide PosOf, RecEntry, Extended, IsLive, Tiles;
    ExtendedLast(bs, b, recs, ino, name, kind);
    var x := Extended(recs, ino, name, kind);
    var last := RecEntry(bs, b, x, |x| - 1);
    forall e ensures e in BlockLive(bs, b, x) <==> e in BlockLive(bs, b, recs) || e == last {
      if e in BlockLive(bs, b, x) && e != last {
        var k :| 0 <= k < |x| && IsLive(x[k]) && e == RecEntry(bs, b, x, k);
        ExtendedEntry(bs, b, recs, ino, name, kind, k);
      }
      if e in BlockLive(bs, b, recs) {
        var k :| 0 <= k < |recs| && IsLive(recs[k]) && e == RecEntry(bs, b, recs, k);
        ExtendedEntry(bs, b, recs, ino, name, kind, k);
      }
    }
  }

  lemma FreeAfter(bs: nat, b: nat, recs: seq<Rec>, e: Entry)
    requires Tiles(bs, recs) && e in BlockLive(bs, b, recs)
    ensures e.pos < PosOf(bs, b, Free(recs))
  {
    var k :| 0 <= k < |recs| && IsLive(recs[k]) && e == RecEntry(bs, b, recs, k);
    if k < |recs| - 1 {
      StartMono(recs, k, |recs| - 1);
    }
  }

  // ---------------------------------------------------------------------------------------
  // Changes of the row of blocks

  lemma LiveIn(bs: nat, blocks: seq<seq<Rec>>, e: Entry) returns (b: nat)
    requires e in Live(bs, blocks)
    ensures b < |blocks| && e in BlockLive(bs, b, blocks[b])
  {
    hide PosOf;
    var c, i :| 0 <= c < |blocks| && 0 <= i < |blocks[c]| && IsLive(blocks[c][i]) && e == EntryAt(bs, blocks, c, i);
    assert e == RecEntry(bs, c, blocks[c], i);
    b := c;
  }

  lemma InLive(bs: nat, blocks: seq<seq<Rec>>, b: nat, e: Entry)
    requires b < |blocks| && e in BlockLive(bs, b, blocks[b])
    ensures e in Live(bs, blocks)
  {
    hide PosOf;
    var i :| 0 <= i < |blocks[b]| && IsLive(blocks[b][i]) && e == RecEntry(bs, b, blocks[b], i);
    assert e == EntryAt(bs, blocks, b, i);
  }

  /** Blocks at the end come and go with their entries. */
  lemma LivePrefix(bs: nat, blocks: seq<seq<Rec>>, m: nat)
    requires m < |blocks|
    ensures Live(bs, blocks[..m + 1]) == Live(bs, blocks[..m]) + BlockLive(bs, m, blocks[m])
  {
    hide PosOf, BlockLive, Live;
    var less, more := blocks[..m], blocks[..m + 1];
    forall e ensures e in Live(bs, more) <==> e in Live(bs, less) || e in BlockLive(bs, m, blocks[m]) {
      if e in Live(bs, more) {
        var b := LiveIn(bs, more, e);
        if b < m {
          assert less[b] == more[b];
          InLive(bs, less, b, e);
        }
      }
      if e in Live(bs, less) {
        var b := LiveIn(bs, less, e);
        assert less[b] == more[b];
        InLive(bs, more, b, e);
      }
      if e in BlockLive(bs, m, blocks[m]) {
        assert more[m] == blocks[m];
        InLive(bs, more, m, e);
      }
    }
  }

  lemma OneRecord(bs: nat, b: nat, r: Rec)
    ensures BlockLive(bs, b, [r]) == if IsLive(r) then {Entry(PosOf(bs, b, 0), r.ino, r.name, r.kind)} else {}
  {
    hide PosOf;
    assert RecEntry(bs, b, [r], 0) == Entry(PosOf(bs, b, 0), r.ino, r.name, r.kind);
  }

  class Directory {
    const bs: nat
    var blocks: seq<seq<Rec>>

    ghost predicate Valid()
      reads this
    {
      AllTile(bs, blocks)
    }

    constructor (bs: nat)
      requires bs >= 1024 && bs % 4 == 0
      ensures Valid() && this.bs == bs && blocks == []
    {
      this.bs, blocks := bs, [];
    }

    /** _ext2_dir_find: the first record in use with this name. */
    method Find(name: string) returns (err: int, b: nat, i: nat)
      requires Valid()
      ensures err == EOK || err == -ENOENT
      ensures err == EOK ==> b < |blocks| && i < |blocks[b]| && blocks[b][i].ino != 0 && blocks[b][i].name == name
      ensures err == -ENOENT ==> forall e :: e in Live(bs, blocks) ==> e.name != name
    {
      b, i := 0, 0;
      while b < |blocks|
        invariant b <= |blocks|
        invariant forall c, j :: 0 <= c < b && 0 <= j < |blocks[c]| && blocks[c][j].ino != 0 ==>
                  blocks[c][j].name != name
      {
        i := 0;
        while i < |blocks[b]|
          invariant i <= |blocks[b]|
          invariant forall j :: 0 <= j < i && blocks[b][j].ino != 0 ==> blocks[b][j].name != name
        {
          if blocks[b][i].ino != 0 && blocks[b][i].name == name {
            return EOK, b, i;
          }
          i := i + 1;
        }
        b := b + 1;
      }
      err := -ENOENT;
    }

    /**
     * _ext2_dir_read: the first entry at or after a position, and the position to go on from.  The length of the
     * record as the caller is told leads there too, if it can.
     */
    method Read(offs: nat) returns (err: int, e: Entry, next: nat, reclen: nat)
      requires Valid()
      ensures err == EOK || err == -ENOENT
      ensures err == EOK ==> e in Live(bs, blocks) && offs <= e.pos < next
      ensures err == EOK ==> forall x :: x in Live(bs, blocks) && x.pos >= offs ==> x == e || x.pos >= next
      ensures err == -ENOENT ==> forall x :: x in Live(bs, blocks) ==> x.pos < offs
      ensures err == EOK ==> Reclen(offs, next, reclen)
    {
      hide PosOf, Start;
      e, next, reclen := Entry(0, 0, "", 0), 0, 0;
      var b := High(offs, bs);
      Earlier(bs, blocks, offs);
      while b < |blocks|
        invariant High(offs, bs) <= b
        invariant forall c, j :: 0 <= c < b && c < |blocks| && 0 <= j < |blocks[c]| && IsLive(blocks[c][j]) ==>
                  EntryAt(bs, blocks, c, j).pos < offs
      {
        var i, eoffs := 0, 0;
        StartZero(blocks[b]);
        while i < |blocks[b]|
          invariant i <= |blocks[b]| && eoffs == Start(blocks[b], i)
          invariant forall j :: 0 <= j < i && IsLive(blocks[b][j]) ==> EntryAt(bs, blocks, b, j).pos < offs
        {
          var r := blocks[b][i];
          if PosOf(bs, b, eoffs) >= offs && r.ino != 0 && |r.name| != 0 {
            e := EntryAt(bs, blocks, b, i);
            next := e.pos + r.size;
            FirstFound(bs, blocks, offs, b, i);
            reclen := if next - offs > UINT16_MAX then UINT16_MAX else next - offs;
            return EOK, e, next, reclen;
          }
          StartNext(blocks[b], i);
          eoffs := eoffs + r.size;
          i := i + 1;
        }
        b := b + 1;
      }
      err := -ENOENT;
    }

    /** _ext2_dir_add: a new record, cut off the last one of the last block or in a block of its own. */
    method Add(name: string, kind: nat, ino: nat) returns (err: int, ghost e: Entry)
      requires Valid() && ino != 0 && name != ""
      modifies this
      ensures Valid() && (err == EOK || err == -ENAMETOOLONG)
      ensures err == -ENAMETOOLONG <==> |name| > MAX_NAMELEN
      ensures err != EOK ==> blocks == old(blocks)
      ensures err == EOK ==>
              e.name == name && e.ino == ino && e.kind == kind && Live(bs, blocks) == old(Live(bs, blocks)) + {e}
      ensures err == EOK ==> forall x :: x in old(Live(bs, blocks)) ==> x.pos < e.pos
    {
      hide PosOf, Start, Live, BlockLive, Tiles, Extended, Kept, Needed;
      e := Entry(0, 0, "", 0);
      if |name| > MAX_NAMELEN {
        return -ENAMETOOLONG, e;
      }
      var offs := bs;
      if blocks != [] {
        var n := |blocks| - 1;
        var recs := blocks[n];
        var i := LastRecord(recs);
        KeptFits(bs, recs, |name|);
        offs := Start(recs, i) + Kept(recs[i]);
        if Needed(|name|) >= bs - offs {
          offs := bs;
        } else {
          AddLast(bs, blocks, ino, name, kind);
          e := Entry(PosOf(bs, n, Free(recs)), ino, name, kind);
          blocks := blocks[n := Extended(recs, ino, name, kind)];
          return EOK, e;
        }
      }
      AddBlock(bs, blocks, ino, name, kind);
      e := Entry(PosOf(bs, |blocks|, 0), ino, name, kind);
      blocks := blocks + [[Rec(ino, bs, name, kind)]];
      err := EOK;
    }

    /** The walk to the record that ends with the block. */
    method LastRecord(recs: seq<Rec>) returns (i: nat)
      requires bs > 0 && Tiles(bs, recs)
      ensures i == |recs| - 1
    {
      hide Start;
      i := 0;
      var offs := 0;
      StartZero(recs);
      StartNext(recs, 0);
      while offs + recs[i].size != bs
        invariant i < |recs| && offs == Start(recs, i)
        decreases |recs| - i
      {
        StartNext(recs, i);
        offs := offs + recs[i].size;
        i := i + 1;
      }
      StartNext(recs, i);
      if i + 1 < |recs| {
        StartMono(recs, i + 1, |recs|);
      }
    }

    /** The walk to the record before the one at index i. */
    method PrevRecord(recs: seq<Rec>, i: nat) returns (prev: nat)
      requires Tiles(bs, recs) && 0 < i < |recs|
      ensures prev + 1 == i
    {
      hide Start;
      prev := 0;
      var at := 0;
      StartZero(recs);
      StartMono(recs, 0, i);
      while at + recs[prev].size < Start(recs, i)
        invariant prev < i && at == Start(recs, prev)
        decreases i - prev
      {
        StartNext(recs, prev);
        at := at + recs[prev].size;
        prev := prev + 1;
      }
      StartNext(recs, prev);
      if prev + 1 < i {
        StartMono(recs, prev + 1, i);
      }
    }

    /** _ext2_dir_remove: the record is merged into the one before, or dropped with its block, or kept unused. */
    method Remove(name: string) returns (err: int, ghost e: Entry)
      requires Valid() && name != ""
      modifies this
      ensures Valid() && (err == EOK || err == -ENOENT)
      ensures err == -ENOENT ==> blocks == old(blocks) && forall x :: x in Live(bs, blocks) ==> x.name != name
      ensures err == EOK ==>
              e in old(Live(bs, blocks)) && e.name == name && Live(bs, blocks) == old(Live(bs, blocks)) - {e}
    {
      hide PosOf, Start, Live, BlockLive, Merged, Cleared;
      e := Entry(0, 0, "", 0);
      var b, i;
      err, b, i := Find(name);
      if err < 0 {
        return;
      }
      e := EntryAt(bs, blocks, b, i);
      EntryLive(bs, blocks, b, i);
      var recs := blocks[b];
      if i != 0 {
        var prev := PrevRecord(recs, i);
        RemoveMerged(bs, blocks, b, i);
        blocks := blocks[b := Merged(recs, prev + 1)];
      } else if recs[0].size == bs && b + 1 >= |blocks| {
        var m: nat := |blocks| - 1;
        DropLast(bs, blocks);
        while m > 1 && blocks[m - 1][0].ino == 0 && blocks[m - 1][0].size == bs
          invariant m < |blocks| && blocks == old(blocks) && Live(bs, blocks[..m]) == Live(bs, blocks) - {e}
        {
          DropEmpty(bs, blocks, m - 1);
          m := m - 1;
        }
        blocks := blocks[..m];
      } else {
        RemoveCleared(bs, blocks, b);
        blocks := blocks[b := Cleared(recs)];
      }
    }
  }

  lemma KeptFits(bs: nat, recs: seq<Rec>, len: nat)
    requires Tiles(bs, recs)
    ensures Free(recs) <= bs && (Needed(len) < bs - Free(recs) ==> HasRoom(recs, len))
  {
    assert RecOk(recs[|recs| - 1]);
  }

  /** The new record in the last block is behind all others. */
  lemma AddLast(bs: nat, blocks: seq<seq<Rec>>, ino: nat, name: string, kind: nat)
    requires AllTile(bs, blocks) && blocks != [] && HasRoom(blocks[|blocks| - 1], |name|) && ino != 0 && name != ""
    ensures var n := |blocks| - 1;
            var now, e := blocks[n := Extended(blocks[n], ino, name, kind)],
                Entry(PosOf(bs, n, Free(blocks[n])), ino, name, kind);
            AllTile(bs, now) && Live(bs, now) == Live(bs, blocks) + {e} &&
            forall x :: x in Live(bs, blocks) ==> x.pos < e.pos
  {
    hide PosOf, Start, Live, BlockLive, Extended, Kept, Needed, Free, Tiles;
    var n := |blocks| - 1;
    ExtendedTiles(bs, blocks[n], ino, name, kind);
    ExtendedLive(bs, n, blocks[n], ino, name, kind);
    LiveChange(bs, blocks, n, Extended(blocks[n], ino, name, kind));
    forall x | x in Live(bs, blocks) ensures x.pos < PosOf(bs, n, Free(blocks[n])) {
      var b := LiveIn(bs, blocks, x);
      if b == n {
        FreeAfter(bs, n, blocks[n], x);
      } else {
        BlockRange(bs, b, blocks[b], x);
        BlocksUp(bs, b + 1, n, Free(blocks[n]));
      }
    }
  }

  lemma BlocksUp(bs: nat, b: nat, c: nat, o: nat)
    requires b <= c
    ensures PosOf(bs, b, 0) <= PosOf(bs, c, o)
  {
    Times(b, c, bs);
  }

  lemma AddBlock(bs: nat, blocks: seq<seq<Rec>>, ino: nat, name: string, kind: nat)
    requires AllTile(bs, blocks) && ino != 0 && name != "" && |name| <= MAX_NAMELEN
    ensures var n := |blocks|;
            var now, e := blocks + [[Rec(ino, bs, name, kind)]], Entry(PosOf(bs, n, 0), ino, name, kind);
            AllTile(bs, now) && Live(bs, now) == Live(bs, blocks) + {e} &&
            forall x :: x in Live(bs, blocks) ==> x.pos < e.pos
  {
    var n, r := |blocks|, Rec(ino, bs, name, kind);
    var now := blocks + [[r]];
    assert Tiles(bs, [r]) by {
      assert Start([r], 1) == bs;
    }
    hide PosOf, Start, Live, BlockLive, Tiles;
    LivePrefix(bs, now, n);
    assert now[..n] == blocks && now[..n + 1] == now;
    OneRecord(bs, n, r);
    forall x | x in Live(bs, blocks) ensures x.pos < PosOf(bs, n, 0) {
      var b := LiveIn(bs, blocks, x);
      BlockRange(bs, b, blocks[b], x);
      BlocksUp(bs, b + 1, n, 0);
    }
  }

  lemma EntryLive(bs: nat, blocks: seq<seq<Rec>>, b: nat, i: nat)
    requires b < |blocks| && i < |blocks[b]| && IsLive(blocks[b][i])
    ensures EntryAt(bs, blocks, b, i) in Live(bs, blocks) && EntryAt(bs, blocks, b, i) == RecEntry(bs, b, blocks[b], i)
  {
  }

  lemma RemoveMerged(bs: nat, blocks: seq<seq<Rec>>, b: nat, i: nat)
    requires AllTile(bs, blocks) && b < |blocks| && 0 < i < |blocks[b]| && IsLive(blocks[b][i])
    ensures var now := blocks[b := Merged(blocks[b], i)];
            AllTile(bs, now) && Live(bs, now) == Live(bs, blocks) - {EntryAt(bs, blocks, b, i)}
  {
    hide PosOf, Start, Live, Tiles, Merged;
    EntryLive(bs, blocks, b, i);
    MergedTiles(bs, blocks[b], i);
    MergedLive(bs, b, blocks[b], i);
    LiveChange(bs, blocks, b, Merged(blocks[b], i));
    hide BlockLive;
  }

  lemma RemoveCleared(bs: nat, blocks: seq<seq<Rec>>, b: nat)
    requires AllTile(bs, blocks) && b < |blocks| && 0 < |blocks[b]| && IsLive(blocks[b][0])
    ensures var now := blocks[b := Cleared(blocks[b])];
            AllTile(bs, now) && Live(bs, now) == Live(bs, blocks) - {EntryAt(bs, blocks, b, 0)}
  {
    hide PosOf, Start, Live, Cleared;
    EntryLive(bs, blocks, b, 0);
    ClearedLive(bs, b, blocks[b]);
    LiveChange(bs, blocks, b, Cleared(blocks[b]));
    hide BlockLive;
  }

  /** A record as long as the block is its only one. */
  lemma OnlyRecord(bs: nat, recs: seq<Rec>)
    requires bs > 0 && Tiles(bs, recs) && recs[0].size == bs
    ensures recs == [recs[0]]
  {
    assert Start(recs, 1) == Start(recs, 0) + recs[0].size;
    if |recs| > 1 {
      StartMono(recs, 1, |recs|);
    }
  }

  lemma DropLast(bs: nat, blocks: seq<seq<Rec>>)
    requires AllTile(bs, blocks) && blocks != [] && 0 < |blocks[|blocks| - 1]| &&
             blocks[|blocks| - 1][0].size == bs && IsLive(blocks[|blocks| - 1][0])
    ensures Live(bs, blocks[..|blocks| - 1]) == Live(bs, blocks) - {EntryAt(bs, blocks, |blocks| - 1, 0)}
  {
    var n := |blocks| - 1;
    OnlyRecord(bs, blocks[n]);
    EntryLive(bs, blocks, n, 0);
    StartZero(blocks[n]);
    hide PosOf, Start, Live, BlockLive, Tiles;
    LivePrefix(bs, blocks, n);
    assert blocks[..n + 1] == blocks;
    OneRecord(bs, n, blocks[n][0]);
    var e := EntryAt(bs, blocks, n, 0);
    assert BlockLive(bs, n, blocks[n]) == {e};
    if e in Live(bs, blocks[..n]) {
      var b := LiveIn(bs, blocks[..n], e);
      OtherBlock(bs, blocks, n, b, e);
    }
  }

  lemma DropEmpty(bs: nat, blocks: seq<seq<Rec>>, m: nat)
    requires AllTile(bs, blocks) && m < |blocks| && 0 < |blocks[m]| && blocks[m][0].size == bs && blocks[m][0].ino == 0
    ensures Live(bs, blocks[..m]) == Live(bs, blocks[..m + 1])
  {
    OnlyRecord(bs, blocks[m]);
    hide PosOf, Start, Live, BlockLive, Tiles;
    LivePrefix(bs, blocks, m);
    OneRecord(bs, m, blocks[m][0]);
  }

  lemma StartZero(recs: seq<Rec>)
    ensures Start(recs, 0) == 0
  {
  }

  lemma StartNext(recs: seq<Rec>, i: nat)
    requires i < |recs|
    ensures Start(recs, i + 1) == Start(recs, i) + recs[i].size
  {
  }

  /** Entries of the blocks before that of a position come before it. */
  lemma Earlier(bs: nat, blocks: seq<seq<Rec>>, offs: nat)
    requires AllTile(bs, blocks)
    ensures forall c, j ::
            0 <= c < High(offs, bs) && c < |blocks| && 0 <= j < |blocks[c]| && IsLive(blocks[c][j]) ==>
            EntryAt(bs, blocks, c, j).pos < offs
  {
    forall c: nat, j: nat | c < High(offs, bs) && c < |blocks| && j < |blocks[c]| && IsLive(blocks[c][j])
      ensures EntryAt(bs, blocks, c, j).pos < offs
    {
      var e := RecEntry(bs, c, blocks[c], j);
      assert e in BlockLive(bs, c, blocks[c]);
      BlockRange(bs, c, blocks[c], e);
      Split(offs, bs);
      Times(c + 1, High(offs, bs), bs);
    }
  }

  lemma FirstFound(bs: nat, blocks: seq<seq<Rec>>, offs: nat, b: nat, i: nat)
    requires AllTile(bs, blocks) && b < |blocks| && i < |blocks[b]| && IsLive(blocks[b][i]) &&
             EntryAt(bs, blocks, b, i).pos >= offs
    requires forall c, j :: 0 <= c < b && 0 <= j < |blocks[c]| && IsLive(blocks[c][j]) ==>
             EntryAt(bs, blocks, c, j).pos < offs
    requires forall j :: 0 <= j < i && IsLive(blocks[b][j]) ==> EntryAt(bs, blocks, b, j).pos < offs
    ensures var e, next := EntryAt(bs, blocks, b, i), EntryAt(bs, blocks, b, i).pos + blocks[b][i].size;
            e in Live(bs, blocks) && e.pos < next &&
            forall x :: x in Live(bs, blocks) && x.pos >= offs ==> x == e || x.pos >= next
  {
    hide PosOf, Start;
    assert Tiles(bs, blocks[b]) && RecOk(blocks[b][i]);
    var e := EntryAt(bs, blocks, b, i);
    forall x | x in Live(bs, blocks) && x.pos >= offs ensures x == e || x.pos >= e.pos + blocks[b][i].size {
      var c, j :| 0 <= c < |blocks| && 0 <= j < |blocks[c]| && IsLive(blocks[c][j]) && x == EntryAt(bs, blocks, c, j);
      if c > b || (c == b && j > i) {
        Before(bs, blocks, b, i, c, j);
      }
    }
  }

  // ---------------------------------------------------------------------------------------
  // A scan among other operations

  datatype Op = AddOp(name: string, kind: nat, ino: nat) | RemoveOp(name: string) | ReadOp

  ghost predicate OpOk(op: Op) {
    match op
    case AddOp(name, _, ino) => name != "" && ino != 0
    case RemoveOp(name) => name != ""
    case ReadOp => true
  }

  /** What an operation may make of the entries. */
  ghost predicate StepOf(bs: nat, op: Op, was: seq<seq<Rec>>, now: seq<seq<Rec>>) {
    match op
    case AddOp(name, kind, ino) =>
      if |name| > MAX_NAMELEN then now == was
      else exists pos: nat ::
      Live(bs, now) == Live(bs, was) + {Entry(pos, ino, name, kind)} && forall x :: x in Live(bs, was) ==> x.pos < pos
    case RemoveOp(name) =>
      if forall x :: x in Live(bs, was) ==> x.name != name then now == was
      else exists e :: e in Live(bs, was) && e.name == name && Live(bs, now) == Live(bs, was) - {e}
    case ReadOp => now == was
  }

  ghost predicate Rising(seen: seq<Entry>) {
    forall i, j :: 0 <= i < j < |seen| ==> seen[i].pos < seen[j].pos
  }

  /** In all these states of the directory the entry is there. */
  ghost predicate Throughout(bs: nat, states: seq<seq<seq<Rec>>>, e: Entry) {
    forall k :: 0 <= k < |states| ==> e in Live(bs, states[k])
  }

  /** Everything that stays before the cursor was seen. */
  ghost predicate SeenUpTo(bs: nat, states: seq<seq<seq<Rec>>>, seen: seq<Entry>, cursor: nat) {
    forall e :: Throughout(bs, states, e) && e.pos < cursor ==> e in seen
  }

  lemma LaterSeen(bs: nat, states: seq<seq<seq<Rec>>>, now: seq<seq<Rec>>, seen: seq<Entry>, cursor: nat)
    requires SeenUpTo(bs, states, seen, cursor)
    ensures SeenUpTo(bs, states + [now], seen, cursor)
  {
    forall e | Throughout(bs, states + [now], e) && e.pos < cursor ensures e in seen {
      assert forall k :: 0 <= k < |states| ==> (states + [now])[k] == states[k];
      assert Throughout(bs, states, e);
    }
  }

  /**
   * A scan from the start of the directory, each read going on where the last one ended, among any other
   * operations: the entries come in ascending order, so none twice, and when the scan comes to the end,
   * every entry that was there all the time has come.
   */
  method Scan(d: Directory, ops: seq<Op>) returns (seen: seq<Entry>, ended: bool, ghost states: seq<seq<seq<Rec>>>)
    requires d.Valid() && forall i :: 0 <= i < |ops| ==> OpOk(ops[i])
    modifies d
    ensures d.Valid() && |states| == |ops| + 1 && states[0] == old(d.blocks) && states[|ops|] == d.blocks
    ensures forall i :: 0 <= i < |ops| ==> StepOf(d.bs, ops[i], states[i], states[i + 1])
    ensures Rising(seen)
    ensures ended ==> forall e :: Throughout(d.bs, states, e) ==> e in seen
    ensures forall e :: e in seen ==> exists k :: 0 <= k < |states| && e in Live(d.bs, states[k])
  {
    hide Live, AllTile;
    seen, ended, states := [], false, [d.blocks];
    var i, cursor: nat := 0, 0;
    while i < |ops|
      invariant i <= |ops| && d.Valid() && |states| == i + 1 && states[0] == old(d.blocks) && states[i] == d.blocks
      invariant forall j :: 0 <= j < i ==> StepOf(d.bs, ops[j], states[j], states[j + 1])
      invariant Rising(seen) && forall e :: e in seen ==> e.pos < cursor
      invariant SeenUpTo(d.bs, states, seen, cursor)
      invariant ended ==> forall e :: Throughout(d.bs, states, e) ==> e in seen
      invariant forall e :: e in seen ==> exists k :: 0 <= k < |states| && e in Live(d.bs, states[k])
    {
      ghost var before, was := states, d.blocks;
      match ops[i] {
        case AddOp(name, kind, ino) =>
          var err; ghost var e;
          err, e := d.Add(name, kind, ino);
          assert e == Entry(e.pos, e.ino, e.name, e.kind);
        case RemoveOp(name) =>
          var err; ghost var e;
          err, e := d.Remove(name);
        case ReadOp =>
          var err, e, next, _ := d.Read(cursor);
          ReadSees(d.bs, states, d.blocks, seen, cursor, err, e, next);
          if err == EOK {
            seen, cursor := seen + [e], next;
          } else {
            ended := true;
          }
      }
      LaterSeen(d.bs, states, d.blocks, seen, cursor);
      assert StepOf(d.bs, ops[i], was, d.blocks);
      states := states + [d.blocks];
      StillAll(d.bs, before, d.blocks, seen, ended);
      StillSome(d.bs, before, d.blocks, seen);
      i := i + 1;
    }
  }

  lemma ReadSees(bs: nat, states: seq<seq<seq<Rec>>>, now: seq<seq<Rec>>, seen: seq<Entry>, cursor: nat, err: int,
                 e: Entry, next: nat)
    requires 0 < |states| && states[|states| - 1] == now && SeenUpTo(bs, states, seen, cursor)
    requires err == EOK ==>
             e in Live(bs, now) && cursor <= e.pos < next &&
             forall x :: x in Live(bs, now) && x.pos >= cursor ==> x == e || x.pos >= next
    requires err != EOK ==> forall x :: x in Live(bs, now) ==> x.pos < cursor
    ensures err == EOK ==> SeenUpTo(bs, states, seen + [e], next)
    ensures err != EOK ==> forall x :: Throughout(bs, states, x) ==> x in seen
  {
    hide Live;
    forall x | Throughout(bs, states, x) ensures x in Live(bs, now) {
      assert x in Live(bs, states[|states| - 1]);
    }
  }

  lemma StillAll(bs: nat, states: seq<seq<seq<Rec>>>, now: seq<seq<Rec>>, seen: seq<Entry>, ended: bool)
    requires ended ==> forall e :: Throughout(bs, states, e) ==> e in seen
    ensures ended ==> forall e :: Throughout(bs, states + [now], e) ==> e in seen
  {
    hide Live;
    forall e | Throughout(bs, states + [now], e) ensures Throughout(bs, states, e) {
      assert forall k :: 0 <= k < |states| ==> (states + [now])[k] == states[k];
    }
  }

  lemma StillSome(bs: nat, states: seq<seq<seq<Rec>>>, now: seq<seq<Rec>>, seen: seq<Entry>)
    requires 0 < |states| && forall e :: e in seen ==> exists k :: 0 <= k < |states| && e in Live(bs, states[k])
    ensures forall e :: e in seen ==> exists k :: 0 <= k < |states| + 1 && e in Live(bs, (states + [now])[k])
  {
    hide Live;
    forall e | e in seen ensures exists k :: 0 <= k < |states| + 1 && e in Live(bs, (states + [now])[k]) {
      var k :| 0 <= k < |states| && e in Live(bs, states[k]);
      assert (states + [now])[k] == states[k];
    }
  }

  // ---------------------------------------------------------------------------------------
  // A client that goes on by the length of the record

  /**
   * It gets the same entry again exactly if that is 65535 bytes or more past the position it asked for, and otherwise
   * what a client that takes the next position gets.
   */
  method ReadByReclen(d: Directory, offs: nat) returns (err: int, e: Entry, err1: int, e1: Entry, err2: int, e2: Entry)
    requires d.Valid()
    ensures err == EOK ==> e in Live(d.bs, d.blocks) && e.pos >= offs
    ensures err == EOK ==> (err2 == EOK && e2 == e <==> e.pos - offs >= UINT16_MAX)
    ensures err == EOK && e.pos - offs < UINT16_MAX ==> err2 == err1 && (err1 == EOK ==> e2 == e1)
    ensures err == EOK && err1 == EOK ==> e1 != e
  {
    hide Live;
    var next, reclen, n1, n2, r1, r2;
    err, e, next, reclen := d.Read(offs);
    err1, e1, n1, r1 := d.Read(next);
    err2, e2, n2, r2 := d.Read(offs + reclen);
  }

  /** Sixty-four emptied blocks before the only entry. */
  function FarBlocks(): seq<seq<Rec>> {
    seq(65, b => if b < 64 then [Rec(0, 1024, "", 0)] else [Rec(2, 1024, "a", 1)])
  }

  lemma FarEntry()
    ensures AllTile(1024, FarBlocks()) && Live(1024, FarBlocks()) == {Entry(65536, 2, "a", 1)}
  {
    var blocks := FarBlocks();
    forall b | 0 <= b < |blocks| ensures Tiles(1024, blocks[b]) {
      assert Start(blocks[b], 1) == Start(blocks[b], 0) + 1024;
    }
    assert EntryAt(1024, blocks, 64, 0) == Entry(65536, 2, "a", 1);
    assert IsLive(blocks[64][0]);
  }
}
