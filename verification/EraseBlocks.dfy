/**
 Space accounting, raw node references and block lists of JFFS2: jffs2/nodemgmt.c, jffs2/erase.c,
 jffs2/gc.c, jffs2_link_node_ref and __ref_totlen of jffs2/nodelist.c, and the block refiling of
 jffs2/wbuf.c.

 Every step keeps the books that jffs2/debug.c checks: sizes add up per block and over the flash,
 references tile each block, and every block stands in exactly one place.
 */
module EraseBlocks {
  datatype Option<T> = None | Some(value: T)

  // ----- Raw node references -----

  datatype RefState = Unchecked | Obsolete | Pristine | Normal {
    predicate Live() { this != Obsolete }

    function Class(): Class {
      match this
      case Unchecked => UncheckedSpace
      case Obsolete => ObsoleteSpace
      case Pristine => UsedSpace
      case Normal => UsedSpace
    }
  }

  /** What a reference's bytes count as. */
  datatype Class = UsedSpace | UncheckedSpace | ObsoleteSpace

  /** A reference: its offset in the block, its state, and whether it hangs on an inode. */
  datatype Ref = Ref(ofs: nat, state: RefState, hasIno: bool)

  /** References in order, all inside the written area [0, end), the first at its start. */
  ghost predicate Tiled(refs: seq<Ref>, end: nat) {
    && (refs != [] ==> refs[0].ofs == 0)
    && (forall i :: 0 <= i < |refs| ==> refs[i].ofs <= end)
    && (forall i, j :: 0 <= i < j < |refs| ==> refs[i].ofs <= refs[j].ofs)
    && (forall i :: 0 <= i < |refs| && refs[i].state.Live() ==> RefEnd(refs, end, i) > refs[i].ofs)
  }

  /** Where reference `i` ends: at the next one, or where the free space begins. */
  function RefEnd(refs: seq<Ref>, end: nat, i: nat): nat
    requires i < |refs|
  {
    if i + 1 < |refs| then refs[i + 1].ofs else end
  }

  /** The length __ref_totlen recovers for reference `i`. */
  function RefTotlen(refs: seq<Ref>, end: nat, i: nat): int
    requires i < |refs|
  {
    RefEnd(refs, end, i) - refs[i].ofs
  }

  /** Total length of the references in a class of states. */
  ghost function SumLen(refs: seq<Ref>, end: nat, cls: Class): int {
    if refs == [] then 0
    else
      var last := refs[|refs| - 1];
      (if last.state.Class() == cls then end - last.ofs else 0) + SumLen(refs[..|refs| - 1], last.ofs, cls)
  }

  lemma TiledInit(refs: seq<Ref>, end: nat)
    requires Tiled(refs, end) && refs != []
    ensures Tiled(refs[..|refs| - 1], refs[|refs| - 1].ofs)
  {
    var n := |refs| - 1;
    assert forall i :: 0 <= i < n ==> RefEnd(refs[..n], refs[n].ofs, i) == RefEnd(refs, end, i);
  }

  lemma {:induction false} SumLenBound(refs: seq<Ref>, end: nat, cls: Class, i: nat)
    requires Tiled(refs, end) && i < |refs| && refs[i].state.Class() == cls
    ensures 0 <= RefTotlen(refs, end, i) <= SumLen(refs, end, cls)
  {
    var n := |refs| - 1;
    TiledInit(refs, end);
    if i < n {
      SumLenBound(refs[..n], refs[n].ofs, cls, i);
    } else {
      SumLenNat(refs[..n], refs[n].ofs, cls);
    }
  }

  lemma {:induction false} SumLenNat(refs: seq<Ref>, end: nat, cls: Class)
    requires Tiled(refs, end)
    ensures SumLen(refs, end, cls) >= 0
  {
    if refs != [] {
      TiledInit(refs, end);
      SumLenNat(refs[..|refs| - 1], refs[|refs| - 1].ofs, cls);
    }
  }

  /** Re-marking a reference moves exactly its length between the classes. */
  lemma {:induction false} SumLenMark(refs: seq<Ref>, end: nat, cls: Class, i: nat, s: RefState)
    requires i < |refs|
    ensures SumLen(refs[i := refs[i].(state := s)], end, cls) == SumLen(refs, end, cls)
              - (if refs[i].state.Class() == cls then RefTotlen(refs, end, i) else 0)
              + (if s.Class() == cls then RefTotlen(refs, end, i) else 0)
  {
    var n := |refs| - 1;
    var refs' := refs[i := refs[i].(state := s)];
    if i < n {
      SumLenMark(refs[..n], refs[n].ofs, cls, i, s);
      assert refs'[..n] == refs[..n][i := refs[i].(state := s)];
    } else {
      assert refs'[..n] == refs[..n];
    }
  }

  lemma SumLenAppend(refs: seq<Ref>, end: nat, cls: Class, r: Ref, len: nat)
    requires r.ofs == end
    ensures SumLen(refs + [r], end + len, cls) == SumLen(refs, end, cls) + (if r.state.Class() == cls then len else 0)
  {
    assert (refs + [r])[..|refs|] == refs;
  }

  /** The three classes share out the whole written area: the tiling leaves nothing unaccounted. */
  lemma {:induction false} SumLenWhole(refs: seq<Ref>, end: nat)
    requires refs != [] && refs[0].ofs == 0
    ensures SumLen(refs, end, UsedSpace) + SumLen(refs, end, UncheckedSpace) + SumLen(refs, end, ObsoleteSpace) == end
  {
    var n := |refs| - 1;
    if n > 0 {
      SumLenWhole(refs[..n], refs[n].ofs);
    } else {
      assert refs[..n] == [];
    }
  }

  // ----- Blocks and their sizes -----

  datatype Sizes = Sizes(unchecked: nat, used: nat, dirty: nat, wasted: nat, free: nat) {
    function Total(): nat { unchecked + used + dirty + wasted + free }

    ghost predicate Covers(s: Sizes) {
      s.unchecked <= unchecked && s.used <= used && s.dirty <= dirty && s.wasted <= wasted && s.free <= free
    }
  }

  const ZERO := Sizes(0, 0, 0, 0, 0)

  function Plus(a: Sizes, b: Sizes): Sizes {
    Sizes(a.unchecked + b.unchecked, a.used + b.used, a.dirty + b.dirty, a.wasted + b.wasted, a.free + b.free)
  }

  datatype Block = Block(sizes: Sizes, refs: seq<Ref>)

  function Sum(bs: seq<Block>): Sizes {
    if bs == [] then ZERO else Plus(Sum(bs[..|bs| - 1]), bs[|bs| - 1].sizes)
  }

  lemma {:induction false} SumUpdate(bs: seq<Block>, i: nat, x: Block)
    requires i < |bs|
    ensures Plus(Sum(bs[i := x]), bs[i].sizes) == Plus(Sum(bs), x.sizes)
    ensures Sum(bs).Covers(bs[i].sizes)
  {
    var n := |bs| - 1;
    if i < n {
      SumUpdate(bs[..n], i, x);
      assert bs[i := x][..n] == bs[..n][i := x];
    } else {
      assert bs[i := x][..n] == bs[..n];
    }
  }

  // ----- Lists -----

  datatype ListId =
    | Clean | VeryDirty | Dirty | Erasable | ErasablePendingWbuf | ErasePending
    | Erasing | EraseChecking | EraseComplete | Free | Bad | BadUsed

  type Lists = map<ListId, seq<nat>>

  datatype Place = On(list: ListId) | NextBlock | GcBlock

  ghost predicate NoDup(s: seq<nat>) {
    forall i, j :: 0 <= i < j < |s| ==> s[i] != s[j]
  }

  function Without(s: seq<nat>, b: nat): seq<nat> {
    if s == [] then [] else if s[0] == b then s[1..] else [s[0]] + Without(s[1..], b)
  }

  lemma {:induction false} WithoutFacts(s: seq<nat>, b: nat)
    requires NoDup(s)
    ensures NoDup(Without(s, b)) && |Without(s, b)| == |s| - (if b in s then 1 else 0)
    ensures forall x :: x in Without(s, b) <==> x in s && x != b
  {
    if s != [] {
      assert s == [s[0]] + s[1..];
      WithoutFacts(s[1..], b);
      assert forall j :: 0 <= j < |s[1..]| ==> s[1..][j] == s[j + 1];
      assert s[0] !in s[1..];
      if s[0] != b {
        var r := Without(s[1..], b);
        assert forall j :: 0 <= j < |r| ==> r[j] in s[1..];
      }
    }
  }

  /** list_del: the block leaves whatever list it is on. */
  function Unlinked(lists: Lists, b: nat): (r: Lists)
    ensures r.Keys == lists.Keys
  {
    map l | l in lists :: Without(lists[l], b)
  }

  function Linked(lists: Lists, l: ListId, b: nat, tail: bool): (r: Lists)
    requires l in lists
    ensures r.Keys == lists.Keys
  {
    lists[l := if tail then lists[l] + [b] else [b] + lists[l]]
  }

  /**
   Each of the `n` blocks has one place, and the lists, nextblock and gcblock say just that.
   In particular no block is on two lists, twice on one, or nowhere.
   */
  ghost predicate Partition(lists: Lists, next: Option<nat>, gc: Option<nat>, place: seq<Place>) {
    && (forall l: ListId :: l in lists)
    && (forall l: ListId :: NoDup(lists[l]))
    && (forall l: ListId, b: nat :: Agrees(b in lists[l], place, b, On(l)))
    && (forall b: nat :: Agrees(next == Some(b), place, b, NextBlock))
    && (forall b: nat :: Agrees(gc == Some(b), place, b, GcBlock))
  }

  /** `here` says that block `b` stands at `p`, and `place` says so too. */
  ghost predicate Agrees(here: bool, place: seq<Place>, b: nat, p: Place) {
    here <==> b < |place| && place[b] == p
  }

  lemma UnlinkFacts(lists: Lists, next: Option<nat>, gc: Option<nat>, place: seq<Place>, b: nat)
    requires Partition(lists, next, gc, place) && b < |place|
    ensures forall k: ListId :: NoDup(Unlinked(lists, b)[k])
    ensures forall k: ListId :: |Unlinked(lists, b)[k]| == |lists[k]| - (if place[b] == On(k) then 1 else 0)
    ensures forall k: ListId, x: nat :: x in Unlinked(lists, b)[k] <==> x in lists[k] && x != b
  {
    var u := Unlinked(lists, b);
    forall k: ListId
      ensures NoDup(u[k]) && |u[k]| == |lists[k]| - (if place[b] == On(k) then 1 else 0)
      ensures forall x :: x in u[k] <==> x in lists[k] && x != b
    {
      WithoutFacts(lists[k], b);
      assert Agrees(b in lists[k], place, b, On(k));
    }
  }

  /** Linking a block that is on no list. */
  lemma LinkFacts(lists: Lists, l: ListId, b: nat, tail: bool)
    requires l in lists && NoDup(lists[l]) && b !in lists[l]
    ensures var r := Linked(lists, l, b, tail)[l];
            NoDup(r) && |r| == |lists[l]| + 1 && forall x: nat :: x in r <==> x in lists[l] || x == b
  {
  }

  function Moved(lists: Lists, b: nat, l: ListId, tail: bool): (r: Lists)
    requires forall l: ListId :: l in lists
    ensures forall l: ListId :: l in r
  {
    Linked(Unlinked(lists, b), l, b, tail)
  }

  /** Moving a block from its list to another (or to another spot on its own). */
  lemma MoveKeeps(lists: Lists, next: Option<nat>, gc: Option<nat>, place: seq<Place>, b: nat, l: ListId, tail: bool)
    requires Partition(lists, next, gc, place) && b < |place| && place[b].On?
    ensures Partition(Moved(lists, b, l, tail), next, gc, place[b := On(l)])
  {
    hide NoDup, Without;
    UnlinkFacts(lists, next, gc, place, b);
    LinkFacts(Unlinked(lists, b), l, b, tail);
    var u, r, place' := Unlinked(lists, b), Moved(lists, b, l, tail), place[b := On(l)];
    forall k: ListId, x: nat
      ensures Agrees(x in r[k], place', x, On(k))
    {
      assert Agrees(x in lists[k], place, x, On(k));
      assert x in u[k] <==> x in lists[k] && x != b;
      assert k != l ==> r[k] == u[k];
    }
    forall k: ListId
      ensures NoDup(r[k])
    {
      assert NoDup(u[k]) && (k != l ==> r[k] == u[k]);
    }
    forall x: nat
      ensures Agrees(next == Some(x), place', x, NextBlock)
      ensures Agrees(gc == Some(x), place', x, GcBlock)
    {
      assert Agrees(next == Some(x), place, x, NextBlock);
      assert Agrees(gc == Some(x), place, x, GcBlock);
    }
  }

  lemma MoveCounts(lists: Lists, next: Option<nat>, gc: Option<nat>, place: seq<Place>, b: nat, l: ListId, tail: bool)
    requires Partition(lists, next, gc, place) && b < |place| && place[b].On?
    ensures forall k: ListId :: |Moved(lists, b, l, tail)[k]| == |lists[k]| - Here(place[b], k) + Here(On(l), k)
  {
    hide NoDup, Without;
    UnlinkFacts(lists, next, gc, place, b);
    LinkFacts(Unlinked(lists, b), l, b, tail);
  }

  function Is(l: ListId, k: ListId): nat {
    if l == k then 1 else 0
  }

  predicate UnderErase(l: ListId) {
    l == Erasing || l == EraseChecking || l == EraseComplete
  }

  function Here(p: Place, l: ListId): nat {
    if p == On(l) then 1 else 0
  }

  lemma OneNext(lists: Lists, next: Option<nat>, gc: Option<nat>, place: seq<Place>)
    requires Partition(lists, next, gc, place)
    ensures forall x: nat, y: nat :: x < |place| && y < |place| && place[x] == place[y] == NextBlock ==> x == y
    ensures forall x: nat, y: nat :: x < |place| && y < |place| && place[x] == place[y] == GcBlock ==> x == y
  {
    forall x: nat, y: nat | x < |place| && y < |place| && place[x] == place[y] && !place[x].On?
      ensures x == y
    {
      assert Agrees(next == Some(x), place, x, NextBlock) && Agrees(next == Some(y), place, y, NextBlock);
      assert Agrees(gc == Some(x), place, x, GcBlock) && Agrees(gc == Some(y), place, y, GcBlock);
    }
  }

  /** Giving nextblock or gcblock a place on a list. */
  lemma PutKeeps(lists: Lists, next: Option<nat>, gc: Option<nat>, place: seq<Place>, b: nat, l: ListId)
    requires Partition(lists, next, gc, place) && b < |place| && !place[b].On?
    ensures Partition(Linked(lists, l, b, true),
                      if place[b] == NextBlock then None else next,
                      if place[b] == GcBlock then None else gc, place[b := On(l)])
  {
    hide NoDup;
    assert Agrees(b in lists[l], place, b, On(l)) && NoDup(lists[l]);
    LinkFacts(lists, l, b, true);
    OneNext(lists, next, gc, place);
    var r, place' := Linked(lists, l, b, true), place[b := On(l)];
    forall k: ListId, x: nat
      ensures NoDup(r[k]) && Agrees(x in r[k], place', x, On(k))
    {
      assert NoDup(lists[k]) && (k != l ==> r[k] == lists[k]);
      assert Agrees(x in lists[k], place, x, On(k));
    }
    forall x: nat
      ensures Agrees((if place[b] == NextBlock then None else next) == Some(x), place', x, NextBlock)
      ensures Agrees((if place[b] == GcBlock then None else gc) == Some(x), place', x, GcBlock)
    {
      assert Agrees(next == Some(x), place, x, NextBlock);
      assert Agrees(gc == Some(x), place, x, GcBlock);
    }
  }

  /** Taking a block off its list to become nextblock or gcblock. */
  lemma TakeKeeps(lists: Lists, next: Option<nat>, gc: Option<nat>, place: seq<Place>, b: nat, p: Place)
    requires Partition(lists, next, gc, place) && b < |place| && place[b].On? && !p.On?
    requires if p == NextBlock then next == None else gc == None
    ensures Partition(Unlinked(lists, b), if p == NextBlock then Some(b) else next,
                      if p == GcBlock then Some(b) else gc, place[b := p])
    ensures forall k: ListId :: |Unlinked(lists, b)[k]| == |lists[k]| - Here(place[b], k)
  {
    hide NoDup, Without;
    UnlinkFacts(lists, next, gc, place, b);
    var u, place' := Unlinked(lists, b), place[b := p];
    forall k: ListId, x: nat
      ensures NoDup(u[k]) && Agrees(x in u[k], place', x, On(k))
    {
      assert Agrees(x in lists[k], place, x, On(k));
      assert NoDup(u[k]) && (x in u[k] <==> x in lists[k] && x != b);
    }
    forall x: nat
      ensures Agrees((if p == NextBlock then Some(b) else next) == Some(x), place', x, NextBlock)
      ensures Agrees((if p == GcBlock then Some(b) else gc) == Some(x), place', x, GcBlock)
    {
      assert Agrees(next == Some(x), place, x, NextBlock);
      assert Agrees(gc == Some(x), place, x, GcBlock);
    }
  }

  // ----- What holds of each block where it stands -----

  ghost predicate RefsOk(bk: Block, sector: nat) {
    && bk.sizes.free <= sector && Tiled(bk.refs, sector - bk.sizes.free)
    && bk.sizes.used == SumLen(bk.refs, sector - bk.sizes.free, UsedSpace)
    && bk.sizes.unchecked == SumLen(bk.refs, sector - bk.sizes.free, UncheckedSpace)
  }

  /** Being erased, or given up: the block's own sizes are zero and it has no references. */
  predicate Gone(p: Place) {
    p == On(Erasing) || p == On(EraseChecking) || p == On(EraseComplete) || p == On(Bad)
  }

  /** Waiting for erasure: nothing in it is live. */
  predicate Spent(p: Place) {
    p == On(ErasePending) || p == On(Erasable) || p == On(ErasablePendingWbuf)
  }

  ghost predicate BlockOk(bk: Block, p: Place, sector: nat, cleanmarker: nat) {
    if Gone(p) then bk == Block(ZERO, [])
    else
      && bk.sizes.Total() == sector && RefsOk(bk, sector)
      && (Spent(p) ==> bk.sizes.used == 0 && bk.sizes.unchecked == 0)
      && (p == On(Free) ==> bk == FreshBlock(sector, cleanmarker))
      && (p == NextBlock ==> (bk.refs == [] ==> bk.sizes.free == sector))
      && (p != On(Free) && p != NextBlock && p != On(ErasePending) ==> bk.refs != [])
  }

  /** A block as jffs2_mark_erased_block leaves it: empty, but for an in-band clean marker. */
  function FreshBlock(sector: nat, cleanmarker: nat): Block {
    if cleanmarker == 0 || cleanmarker > sector then Block(ZERO.(free := sector), [])
    else Block(Sizes(0, cleanmarker, 0, 0, sector - cleanmarker), [Ref(0, Normal, false)])
  }

  ghost predicate Accounts(blocks: seq<Block>, place: seq<Place>, sector: nat, cleanmarker: nat) {
    |blocks| == |place| && forall b :: 0 <= b < |blocks| ==> BlockOk(blocks[b], place[b], sector, cleanmarker)
  }

  ghost predicate Counters(lists: Lists, sector: nat, erasingSize: nat, badSize: nat, nrFree: nat, nrErasing: nat)
    requires forall l: ListId :: l in lists
  {
    && erasingSize == sector * (|lists[Erasing]| + |lists[EraseChecking]| + |lists[EraseComplete]|)
    && badSize == sector * |lists[Bad]|
    && nrFree == |lists[Free]|
    && nrErasing == |lists[ErasePending]| + |lists[Erasing]| + |lists[EraseChecking]| + |lists[EraseComplete]|
  }

  function BeingErased(lists: Lists): nat
    requires forall l: ListId :: l in lists
  {
    |lists[Erasing]| + |lists[EraseChecking]| + |lists[EraseComplete]|
  }

  lemma AtLeastOne(sector: nat, k: nat)
    requires k >= 1
    ensures sector * k >= sector
  {
  }

  /** Counters that follow the lengths of their lists stay right. */
  lemma CountersFollow(l: Lists, sector: nat, e: nat, b: nat, nf: nat, ne: nat,
                       l': Lists, e': nat, b': nat, nf': nat, ne': nat)
    requires (forall k: ListId :: k in l) && (forall k: ListId :: k in l') && Counters(l, sector, e, b, nf, ne)
    requires || (BeingErased(l') == BeingErased(l) && e' == e)
             || (BeingErased(l') == BeingErased(l) + 1 && e' == e + sector)
             || (BeingErased(l') == BeingErased(l) - 1 && e' == e - sector)
    requires (|l'[Bad]| == |l[Bad]| && b' == b) || (|l'[Bad]| == |l[Bad]| + 1 && b' == b + sector)
    requires nf' - nf == |l'[Free]| - |l[Free]|
    requires ne' - ne == |l'[ErasePending]| + BeingErased(l') - |l[ErasePending]| - BeingErased(l)
    ensures Counters(l', sector, e', b', nf', ne')
  {
    assert sector * (BeingErased(l) + 1) == sector * BeingErased(l) + sector;
    assert sector * (BeingErased(l) - 1) == sector * BeingErased(l) - sector;
    assert sector * (|l[Bad]| + 1) == sector * |l[Bad]| + sector;
  }

  predicate IsDirty(size: nat) { size > 68 + 128 }

  /** Appending a reference of `len` bytes where the free space begins. */
  function LinkRef(bk: Block, sector: nat, state: RefState, hasIno: bool, len: nat): Block
    requires len <= bk.sizes.free <= sector
  {
    var z := bk.sizes.(free := bk.sizes.free - len);
    Block(match state
          case Unchecked => z.(unchecked := z.unchecked + len)
          case Normal => z.(used := z.used + len)
          case Pristine => z.(used := z.used + len)
          case Obsolete => z.(dirty := z.dirty + len),
          bk.refs + [Ref(sector - bk.sizes.free, state, hasIno)])
  }

  lemma LinkRefOk(bk: Block, sector: nat, state: RefState, hasIno: bool, len: nat)
    requires RefsOk(bk, sector) && len <= bk.sizes.free && (state.Live() ==> len > 0)
    requires bk.refs == [] ==> bk.sizes.free == sector
    ensures RefsOk(LinkRef(bk, sector, state, hasIno, len), sector)
    ensures LinkRef(bk, sector, state, hasIno, len).sizes.Total() == bk.sizes.Total()
  {
    hide SumLen, Tiled;
    var end := sector - bk.sizes.free;
    var r := Ref(end, state, hasIno);
    SumLenAppend(bk.refs, end, UsedSpace, r, len);
    SumLenAppend(bk.refs, end, UncheckedSpace, r, len);
    TiledAppend(bk.refs, end, r, len);
  }

  lemma TiledAppend(refs: seq<Ref>, end: nat, r: Ref, len: nat)
    requires Tiled(refs, end) && r.ofs == end && (refs == [] ==> end == 0) && (r.state.Live() ==> len > 0)
    ensures Tiled(refs + [r], end + len)
  {
    assert forall i :: 0 <= i < |refs| ==> RefEnd(refs + [r], end + len, i) == RefEnd(refs, end, i);
  }

  lemma LinkedNextOk(bk: Block, sector: nat, cleanmarker: nat, state: RefState, hasIno: bool, len: nat)
    requires BlockOk(bk, NextBlock, sector, cleanmarker) && len <= bk.sizes.free <= sector && (state.Live() ==> len > 0)
    ensures BlockOk(LinkRef(bk, sector, state, hasIno, len), NextBlock, sector, cleanmarker)
    ensures LinkRef(bk, sector, state, hasIno, len).refs != []
  {
    LinkRefOk(bk, sector, state, hasIno, len);
  }

  lemma AcceptedFree(bk: Block, p: Place, sector: nat, cleanmarker: nat)
    requires BlockOk(bk, p, sector, cleanmarker) && !Gone(p)
    ensures bk.sizes.free <= sector
  {
  }

  lemma LinkedUsedOk(bk: Block, p: Place, sector: nat, cleanmarker: nat, hasIno: bool, len: nat)
    requires BlockOk(bk, p, sector, cleanmarker) && len <= bk.sizes.free <= sector && !Gone(p) && p != On(Free) &&
             bk.refs != []
    ensures BlockOk(LinkRef(bk, sector, Obsolete, hasIno, len), p, sector, cleanmarker)
  {
    hide RefsOk;
    LinkRefOk(bk, sector, Obsolete, hasIno, len);
  }

  /** Written-off space may change between dirty and wasted, and a block with references may be filed. */
  lemma RefiledOk(bk: Block, sector: nat, cleanmarker: nat, p: Place, z: Sizes, p': Place)
    requires BlockOk(bk, p, sector, cleanmarker) && !Gone(p) && p != On(Free) && bk.refs != []
    requires z.used == bk.sizes.used && z.unchecked == bk.sizes.unchecked && z.free == bk.sizes.free
    requires z.dirty + z.wasted == bk.sizes.dirty + bk.sizes.wasted
    requires !Gone(p') && p' != On(Free) && (Spent(p') ==> z.used == 0 && z.unchecked == 0)
    ensures BlockOk(bk.(sizes := z), p', sector, cleanmarker)
  {
  }

  function Area(n: nat, sector: nat): nat {
    n * sector
  }

  lemma AreaMore(n: nat, sector: nat)
    ensures Area(n + 1, sector) == Area(n, sector) + sector && Area(0, sector) == 0
  {
  }

  lemma PlusTotal(a: Sizes, b: Sizes)
    ensures Plus(a, b).Total() == a.Total() + b.Total()
  {
  }

  lemma {:induction false} SumTotal(bs: seq<Block>, sector: nat)
    requires forall b :: 0 <= b < |bs| ==> bs[b].sizes.Total() == sector
    ensures Sum(bs).Total() == Area(|bs|, sector)
  {
    hide Area, Plus;
    var n := |bs| - 1;
    if n >= 0 {
      SumTotal(bs[..n], sector);
      AreaMore(n, sector);
      PlusTotal(Sum(bs[..n]), bs[n].sizes);
    } else {
      AreaMore(0, sector);
    }
  }

  function Same<T>(n: nat, x: T): (r: seq<T>)
    ensures |r| == n && forall i :: 0 <= i < n ==> r[i] == x
  {
    seq(n, _ => x)
  }

  function Upto(n: nat): (r: seq<nat>)
    ensures |r| == n && forall i :: 0 <= i < n ==> r[i] == i
  {
    seq(n, i => i)
  }

  /** Every list is there. */
  predicate Kept(l: ListId) { true }

  function AllFree(n: nat): (r: Lists)
    ensures forall l: ListId :: Kept(l) && l in r && r[l] == if l == Free then Upto(n) else []
  {
    map l: ListId | Kept(l) :: if l == Free then Upto(n) else []
  }

  lemma FreshPartition(n: nat, place: seq<Place>)
    requires |place| == n && forall b :: 0 <= b < n ==> place[b] == On(Free)
    ensures Partition(AllFree(n), None, None, place)
  {
    forall l: ListId, b: nat ensures Agrees(b in AllFree(n)[l], place, b, On(l)) {
      assert b < n ==> Upto(n)[b] == b;
    }
  }

  lemma FreshCounters(n: nat, sector: nat)
    ensures (forall l: ListId :: l in AllFree(n) && (l != Free ==> AllFree(n)[l] == [])) &&
            Counters(AllFree(n), sector, 0, 0, n, 0)
  {
    hide AllFree;
    assert sector * 0 == 0;
  }

  lemma FreshTotal(bs: seq<Block>, sector: nat, cleanmarker: nat)
    requires cleanmarker <= sector && forall b :: 0 <= b < |bs| ==> bs[b] == FreshBlock(sector, cleanmarker)
    ensures Sum(bs).Total() == Area(|bs|, sector)
  {
    hide Sum, FreshBlock, Area, BlockOk;
    FreshOk(sector, cleanmarker);
    SumTotal(bs, sector);
  }

  lemma FreshAccounts(bs: seq<Block>, place: seq<Place>, sector: nat, cleanmarker: nat)
    requires cleanmarker <= sector && |bs| == |place|
    requires forall b :: 0 <= b < |bs| ==> bs[b] == FreshBlock(sector, cleanmarker) && place[b] == On(Free)
    ensures Accounts(bs, place, sector, cleanmarker)
  {
    hide FreshBlock, BlockOk;
    FreshOk(sector, cleanmarker);
  }

  class SuperBlock {
    const sectorSize: nat
    const cleanmarkerSize: nat
    const flashSize: nat
    const resvBlocksGcbad: nat
    var blocks: seq<Block>
    var sizes: Sizes // c->unchecked_size, used_size, dirty_size, wasted_size and free_size
    var erasingSize: nat
    var badSize: nat
    var nrFreeBlocks: nat
    var nrErasingBlocks: nat
    var lists: Lists
    var nextblock: Option<nat>
    var gcblock: Option<nat>
    ghost var place: seq<Place>

    ghost predicate Valid()
      reads this
    {
      && cleanmarkerSize <= sectorSize
      && Partition(lists, nextblock, gcblock, place)
      && Accounts(blocks, place, sectorSize, cleanmarkerSize)
      && Counters(lists, sectorSize, erasingSize, badSize, nrFreeBlocks, nrErasingBlocks)
      && sizes == Sum(blocks)
      && sizes.Total() + erasingSize + badSize == flashSize
      && (gcblock.Some? ==> sizes.unchecked == 0)
    }

    /** A flash of n blocks that were all erased and checked. */
    constructor (sector: nat, cleanmarker: nat, n: nat, resv: nat)
      requires cleanmarker <= sector
      ensures Valid() && sectorSize == sector && cleanmarkerSize == cleanmarker && flashSize == Area(n, sector) &&
              |blocks| == n
      ensures nextblock == None && gcblock == None && (forall l: ListId :: l in lists && (l != Free ==> lists[l] == []))
    {
      hide Sum, Partition, FreshBlock, BlockOk, AllFree, Area, Accounts, Counters, Same;
      sectorSize, cleanmarkerSize, flashSize, resvBlocksGcbad := sector, cleanmarker, Area(n, sector), resv;
      var bs := Same(n, FreshBlock(sector, cleanmarker));
      blocks, sizes := bs, Sum(bs);
      erasingSize, badSize, nrFreeBlocks, nrErasingBlocks := 0, 0, n, 0;
      lists, nextblock, gcblock := AllFree(n), None, None;
      place := Same(n, On(Free));
      new;
      FreshPartition(n, place);
      FreshCounters(n, sector);
      FreshTotal(bs, sector, cleanmarker);
      FreshAccounts(bs, place, sector, cleanmarker);
    }

    lemma AllLists()
      requires Valid()
      ensures forall l: ListId :: l in lists
    {
    }

    lemma NextPlace(b: nat)
      requires Valid() && nextblock == Some(b)
      ensures b < |blocks| && place[b] == NextBlock && BlockOk(blocks[b], NextBlock, sectorSize, cleanmarkerSize)
    {
      hide BlockOk, Sum, Counters;
      assert Agrees(nextblock == Some(b), place, b, NextBlock);
    }

    lemma GcPlace(b: nat)
      requires Valid() && gcblock == Some(b)
      ensures b < |blocks| && place[b] == GcBlock && BlockOk(blocks[b], GcBlock, sectorSize, cleanmarkerSize)
    {
      hide BlockOk, Sum, Counters;
      assert Agrees(gcblock == Some(b), place, b, GcBlock);
    }

    lemma ListPlace(l: ListId, b: nat)
      requires Valid() && b in lists[l]
      ensures b < |blocks| && place[b] == On(l) && BlockOk(blocks[b], On(l), sectorSize, cleanmarkerSize)
    {
      hide BlockOk, Sum, Counters;
      assert Agrees(b in lists[l], place, b, On(l));
    }

    /** One block's new contents, put where it stands or is about to stand. */
    lemma Replaced(b: nat, bk: Block, p: Place)
      requires Valid() && b < |blocks| && BlockOk(bk, p, sectorSize, cleanmarkerSize)
      ensures Accounts(blocks[b := bk], place[b := p], sectorSize, cleanmarkerSize)
      ensures Plus(Sum(blocks[b := bk]), blocks[b].sizes) == Plus(sizes, bk.sizes) && sizes.Covers(blocks[b].sizes)
      ensures place[b := place[b]] == place && |place| == |blocks|
    {
      SumUpdate(blocks, b, bk);
    }

    /** jffs2_link_node_ref: on nextblock, or an obsolete node on a block in use. */
    method LinkNodeRef(b: nat, state: RefState, hasIno: bool, len: nat)
      requires Valid() && b < |blocks| && len <= blocks[b].sizes.free <= sectorSize
      requires nextblock == Some(b) || (state == Obsolete && InUse(b))
      requires state.Live() ==> len > 0
      requires gcblock.Some? ==> state != Unchecked
      modifies `blocks, `sizes
      ensures Valid() && blocks == old(blocks)[b := LinkRef(old(blocks)[b], sectorSize, state, hasIno, len)]
      ensures state != Unchecked ==> sizes.unchecked == old(sizes).unchecked
    {
      hide BlockOk, Sum, Counters, Partition, Accounts;
      var bk := blocks[b];
      Standing(b);
      if nextblock == Some(b) {
        NextPlace(b);
        LinkedNextOk(bk, sectorSize, cleanmarkerSize, state, hasIno, len);
      } else {
        LinkedUsedOk(bk, place[b], sectorSize, cleanmarkerSize, hasIno, len);
      }
      Replaced(b, LinkRef(bk, sectorSize, state, hasIno, len), place[b]);
      var refs := bk.refs + [Ref(sectorSize - bk.sizes.free, state, hasIno)];
      match state {
        case Unchecked =>
          sizes := sizes.(unchecked := sizes.unchecked + len);
          bk := bk.(sizes := bk.sizes.(unchecked := bk.sizes.unchecked + len));
        case Normal =>
          sizes := sizes.(used := sizes.used + len);
          bk := bk.(sizes := bk.sizes.(used := bk.sizes.used + len));
        case Pristine =>
          sizes := sizes.(used := sizes.used + len);
          bk := bk.(sizes := bk.sizes.(used := bk.sizes.used + len));
        case Obsolete =>
          sizes := sizes.(dirty := sizes.dirty + len);
          bk := bk.(sizes := bk.sizes.(dirty := bk.sizes.dirty + len));
      }
      sizes := sizes.(free := sizes.free - len);
      blocks := blocks[b := Block(bk.sizes.(free := bk.sizes.free - len), refs)];
    }

    /** Writes off `waste` bytes at the end of nextblock: linked as obsolete, then moved from dirty to wasted. */
    method WasteNextblock(b: nat, waste: nat)
      requires Valid() && nextblock == Some(b) && b < |blocks| && waste <= blocks[b].sizes.free <= sectorSize
      modifies `blocks, `sizes
      ensures Valid() && blocks == old(blocks)[b := Wasted(old(blocks)[b], sectorSize, waste)]
      ensures sizes.unchecked == old(sizes).unchecked
    {
      hide BlockOk, Sum, Counters, Partition, Accounts;
      LinkNodeRef(b, Obsolete, false, waste);
      NextPlace(b);
      var bk := blocks[b];
      RefiledOk(bk, sectorSize, cleanmarkerSize, NextBlock, Wasted(old(blocks)[b], sectorSize, waste).sizes, NextBlock);
      Replaced(b, Wasted(old(blocks)[b], sectorSize, waste), NextBlock);
      bk := bk.(sizes := bk.sizes.(dirty := bk.sizes.dirty - waste));
      sizes := sizes.(dirty := sizes.dirty - waste);
      bk := bk.(sizes := bk.sizes.(wasted := bk.sizes.wasted + waste));
      sizes := sizes.(wasted := sizes.wasted + waste);
      blocks := blocks[b := bk];
    }

    lemma NextInUse(b: nat)
      requires Valid() && nextblock == Some(b) && b < |blocks| && blocks[b].refs != []
      ensures InUse(b)
    {
      NextPlace(b);
    }

    /** A block in use: it has references and is not on the way to or from erasure. */
    ghost predicate InUse(b: nat)
      reads this
    {
      b < |blocks| && b < |place| && !Gone(place[b]) && place[b] != On(Free) && blocks[b].refs != []
    }

    /** Counts a block's wasted space as dirty. */
    method ConvertWasted(b: nat)
      requires Valid() && InUse(b)
      modifies `blocks, `sizes
      ensures Valid() && blocks == old(blocks)[b := AllDirty(old(blocks)[b])]
    {
      hide BlockOk, Sum, Counters, Partition, Accounts;
      Standing(b);
      var bk := blocks[b];
      RefiledOk(bk, sectorSize, cleanmarkerSize, place[b], AllDirty(bk).sizes, place[b]);
      Replaced(b, AllDirty(bk), place[b]);
      sizes := sizes.(dirty := sizes.dirty + bk.sizes.wasted);
      sizes := sizes.(wasted := sizes.wasted - bk.sizes.wasted);
      bk := bk.(sizes := bk.sizes.(dirty := bk.sizes.dirty + bk.sizes.wasted));
      bk := bk.(sizes := bk.sizes.(wasted := 0));
      blocks := blocks[b := bk];
    }

    lemma Standing(b: nat)
      requires Valid() && b < |blocks|
      ensures |place| == |blocks| && BlockOk(blocks[b], place[b], sectorSize, cleanmarkerSize)
    {
    }

    /** Facts about putting nextblock or gcblock on list `l`. */
    lemma Putting(b: nat, l: ListId, ne: nat)
      requires Valid() && InUse(b) && !place[b].On? && !UnderErase(l) && l != Free && l != Bad
      requires Spent(On(l)) ==> blocks[b].sizes.used == 0 && blocks[b].sizes.unchecked == 0
      requires ne == nrErasingBlocks + Is(l, ErasePending)
      ensures |place| == |blocks| && (forall k: ListId :: k in lists)
      ensures Partition(Linked(lists, l, b, true), if place[b] == NextBlock then None else nextblock,
                        if place[b] == GcBlock then None else gcblock, place[b := On(l)])
      ensures Accounts(blocks, place[b := On(l)], sectorSize, cleanmarkerSize)
      ensures Counters(Linked(lists, l, b, true), sectorSize, erasingSize, badSize, nrFreeBlocks, ne)
    {
      hide BlockOk, Sum, Partition, Accounts;
      AllLists();
      Standing(b);
      RefiledOk(blocks[b], sectorSize, cleanmarkerSize, place[b], blocks[b].sizes, On(l));
      Replaced(b, blocks[b], On(l));
      assert blocks[b := blocks[b]] == blocks;
      PutKeeps(lists, nextblock, gcblock, place, b, l);
      hide Counters;
      CountersFollow(lists, sectorSize, erasingSize, badSize, nrFreeBlocks, nrErasingBlocks,
                     Linked(lists, l, b, true), erasingSize, badSize, nrFreeBlocks, ne);
    }

    /** Puts nextblock on a list of used blocks. */
    method PutNextblock(b: nat, l: ListId)
      requires Valid() && nextblock == Some(b) && InUse(b) && (l == Clean || l == Dirty || l == VeryDirty)
      modifies `lists, `nextblock, `place
      ensures Valid() && nextblock == None && (forall k: ListId :: k in old(lists))
      ensures lists == Linked(old(lists), l, b, true)
    {
      hide BlockOk, Sum, Counters, Partition, Accounts, Linked;
      NextPlace(b);
      Putting(b, l, nrErasingBlocks);
      lists, place := Linked(lists, l, b, true), place[b := On(l)];
      nextblock := None;
    }

    /** Files a full nextblock by how dirty it is. */
    method CloseNextblock()
      requires Valid() && (nextblock.Some? ==> InUse(nextblock.value))
      modifies `blocks, `sizes, `lists, `nextblock, `place
      ensures Valid() && nextblock == None && (forall k: ListId :: k in old(lists))
      ensures old(nextblock).None? ==> blocks == old(blocks) && lists == old(lists)
      ensures old(nextblock).Some? ==>
                var b := old(nextblock).value;
                && b < |old(blocks)| && blocks == old(blocks)[b := Written(old(blocks)[b])]
                && lists == Linked(old(lists), FiledOn(blocks[b], sectorSize), b, true)
    {
      hide BlockOk, Sum, Counters, Partition, Accounts, IsDirty;
      AllLists();
      if nextblock.None? {
        return;
      }
      var b := nextblock.value;
      if IsDirty(blocks[b].sizes.wasted + blocks[b].sizes.dirty) {
        ConvertWasted(b);
        if blocks[b].sizes.dirty >= sectorSize / 2 {
          PutNextblock(b, VeryDirty);
        } else {
          PutNextblock(b, Dirty);
        }
      } else {
        PutNextblock(b, Clean);
      }
    }

    /** Facts about moving block `b` from list `l` to list `l'` with new contents. */
    lemma Moving(b: nat, bk: Block, l: ListId, l': ListId, tail: bool)
      requires Valid() && b in lists[l] && BlockOk(bk, On(l'), sectorSize, cleanmarkerSize)
      ensures b < |blocks| == |place| && place[b] == On(l)
      ensures Partition(Moved(lists, b, l', tail), nextblock, gcblock, place[b := On(l')])
      ensures Accounts(blocks[b := bk], place[b := On(l')], sectorSize, cleanmarkerSize)
      ensures Plus(Sum(blocks[b := bk]), blocks[b].sizes) == Plus(sizes, bk.sizes) && sizes.Covers(blocks[b].sizes)
    {
      hide BlockOk, Sum, Counters;
      ListPlace(l, b);
      Replaced(b, bk, On(l'));
      MoveKeeps(lists, nextblock, gcblock, place, b, l', tail);
    }

    lemma MovingSame(b: nat, l: ListId, l': ListId, tail: bool)
      requires Valid() && b in lists[l] && b < |blocks| && BlockOk(blocks[b], On(l'), sectorSize, cleanmarkerSize)
      ensures |blocks| == |place| && place[b] == On(l)
      ensures Partition(Moved(lists, b, l', tail), nextblock, gcblock, place[b := On(l')])
      ensures Accounts(blocks, place[b := On(l')], sectorSize, cleanmarkerSize)
      ensures l != Free && l' != Free ==> |Moved(lists, b, l', tail)[Free]| == |lists[Free]|
      ensures l != l' ==> |Moved(lists, b, l', tail)[l]| == |lists[l]| - 1
    {
      hide BlockOk;
      Moving(b, blocks[b], l, l', tail);
      MoveCounts(lists, nextblock, gcblock, place, b, l', tail);
      assert blocks[b := blocks[b]] == blocks;
    }

    lemma MovingOnly(b: nat, l: ListId, l': ListId, tail: bool)
      requires Valid() && b in lists[l] && Gone(On(l)) && Gone(On(l'))
      ensures b < |blocks| == |place| && place[b] == On(l)
      ensures Partition(Moved(lists, b, l', tail), nextblock, gcblock, place[b := On(l')])
      ensures Accounts(blocks, place[b := On(l')], sectorSize, cleanmarkerSize)
    {
      ListPlace(l, b);
      GoneOk(On(l'), sectorSize, cleanmarkerSize);
      Moving(b, blocks[b], l, l', tail);
      assert blocks[b := blocks[b]] == blocks;
    }

    /** Counters to match: the bytes under erasure, the bytes given up, the free and the erasing blocks. */
    lemma MovingCounts(b: nat, l: ListId, l': ListId, tail: bool, e: nat, bad: nat, nf: nat, ne: nat)
      requires Valid() && b in lists[l] && l != Bad
      requires e == erasingSize + (if UnderErase(l') then sectorSize else 0) - (if UnderErase(l) then sectorSize else 0)
      requires bad == badSize + (if l' == Bad then sectorSize else 0)
      requires nf == nrFreeBlocks + Is(l', Free) - Is(l, Free)
      requires ne == nrErasingBlocks + Is(l', ErasePending) + (if UnderErase(l') then 1 else 0)
                     - Is(l, ErasePending) - (if UnderErase(l) then 1 else 0)
      ensures (forall k: ListId :: k in lists) && Counters(Moved(lists, b, l', tail), sectorSize, e, bad, nf, ne)
    {
      hide BlockOk, Sum;
      AllLists();
      ListPlace(l, b);
      MoveCounts(lists, nextblock, gcblock, place, b, l', tail);
      hide Moved, Counters;
      CountersFollow(lists, sectorSize, erasingSize, badSize, nrFreeBlocks, nrErasingBlocks,
                     Moved(lists, b, l', tail), e, bad, nf, ne);
    }

    // ----- Erasing: jffs2/erase.c -----

    /** Takes the first pending block, clears its books and starts erasing it. */
    method StartErase()
      requires Valid() && lists[ErasePending] != []
      modifies `blocks, `sizes, `erasingSize, `lists, `place
      ensures Valid() && (forall k: ListId :: k in old(lists))
      ensures var b := old(lists)[ErasePending][0];
              && b < |old(blocks)| && blocks == old(blocks)[b := Block(ZERO, [])]
              && lists == Moved(old(lists), b, Erasing, false)
      ensures erasingSize == old(erasingSize) + sectorSize && sizes.unchecked == old(sizes).unchecked
    {
      hide BlockOk, Sum, Counters, Partition, Accounts, Moved;
      AllLists();
      var b := lists[ErasePending][0];
      ListPlace(ErasePending, b);
      SpentFacts(blocks[b], On(ErasePending), sectorSize, cleanmarkerSize);
      GoneOk(On(Erasing), sectorSize, cleanmarkerSize);
      Moving(b, Block(ZERO, []), ErasePending, Erasing, false);
      MovingCounts(b, ErasePending, Erasing, false, erasingSize + sectorSize, badSize, nrFreeBlocks, nrErasingBlocks);
      var jeb, c := blocks[b].sizes, sizes;
      c := c.(wasted := c.wasted - jeb.wasted);
      c := c.(free := c.free - jeb.free);
      c := c.(used := c.used - jeb.used);
      c := c.(dirty := c.dirty - jeb.dirty);
      erasingSize, sizes := erasingSize + sectorSize, c;
      blocks := blocks[b := Block(jeb.(wasted := 0, used := 0, dirty := 0, free := 0), [])];
      lists, place := Moved(lists, b, Erasing, false), place[b := On(Erasing)];
    }

    method EraseSucceeded(b: nat)
      requires Valid() && b in lists[Erasing]
      modifies `lists, `place
      ensures Valid() && (forall k: ListId :: k in old(lists)) && lists == Moved(old(lists), b, EraseComplete, true)
    {
      MoveErasing(b, Erasing, EraseComplete, true);
    }

    /** Between the lists of blocks under erasure nothing but the list changes. */
    method MoveErasing(b: nat, l: ListId, l': ListId, tail: bool)
      requires Valid() && b in lists[l] && Gone(On(l)) && Gone(On(l')) && l != Bad && l' != Bad
      modifies `lists, `place
      ensures Valid() && (forall k: ListId :: k in old(lists)) && lists == Moved(old(lists), b, l', tail)
    {
      hide BlockOk, Sum, Counters, Partition, Accounts, Moved;
      AllLists();
      MovingOnly(b, l, l', tail);
      MovingCounts(b, l, l', tail, erasingSize, badSize, nrFreeBlocks, nrErasingBlocks);
      lists, place := Moved(lists, b, l', tail), place[b := On(l')];
    }

    /** An erase to be tried again: back to the pending list, all of it dirty. */
    method EraseRefile(b: nat, l: ListId)
      requires Valid() && b in lists[l] && (l == Erasing || l == EraseChecking)
      modifies `blocks, `sizes, `erasingSize, `lists, `place
      ensures Valid() && (forall k: ListId :: k in old(lists)) && lists == Moved(old(lists), b, ErasePending, false)
      ensures b < |old(blocks)| && blocks == old(blocks)[b := Block(ZERO.(dirty := sectorSize), [])]
      ensures erasingSize == old(erasingSize) - sectorSize &&
              sizes == old(sizes).(dirty := old(sizes).dirty + sectorSize)
    {
      hide BlockOk, Sum, Counters, Partition, Accounts, Moved;
      AllLists();
      ListPlace(l, b);
      GoneFacts(blocks[b], On(l), sectorSize, cleanmarkerSize);
      AllDirtyOk(sectorSize, cleanmarkerSize);
      Moving(b, Block(ZERO.(dirty := sectorSize), []), l, ErasePending, false);
      SomeErasing(l, b);
      MovingCounts(b, l, ErasePending, false, erasingSize - sectorSize, badSize, nrFreeBlocks, nrErasingBlocks);
      lists := Moved(lists, b, ErasePending, false);
      erasingSize := erasingSize - sectorSize;
      sizes := sizes.(dirty := sizes.dirty + sectorSize);
      blocks := blocks[b := blocks[b].(sizes := blocks[b].sizes.(dirty := sectorSize))];
      place := place[b := On(ErasePending)];
    }

    lemma SomeErasing(l: ListId, b: nat)
      requires Valid() && b in lists[l] && (l == Erasing || l == EraseChecking || l == EraseComplete)
      ensures erasingSize >= sectorSize && nrErasingBlocks > 0
    {
      hide Sum, Partition, Accounts;
      AllLists();
      assert BeingErased(lists) >= 1;
      AtLeastOne(sectorSize, BeingErased(lists));
    }

    /** Gives a block up for good. */
    method EraseFailed(b: nat, l: ListId)
      requires Valid() && b in lists[l] && (l == Erasing || l == EraseChecking)
      modifies `erasingSize, `badSize, `nrErasingBlocks, `lists, `place
      ensures Valid() && (forall k: ListId :: k in old(lists)) && lists == Moved(old(lists), b, Bad, false)
      ensures erasingSize == old(erasingSize) - sectorSize && badSize == old(badSize) + sectorSize
      ensures nrErasingBlocks == old(nrErasingBlocks) - 1
    {
      hide BlockOk, Sum, Counters, Partition, Accounts, Moved;
      AllLists();
      MovingOnly(b, l, Bad, false);
      SomeErasing(l, b);
      MovingCounts(b, l, Bad, false, erasingSize - sectorSize, badSize + sectorSize, nrFreeBlocks, nrErasingBlocks - 1);
      erasingSize, badSize := erasingSize - sectorSize, badSize + sectorSize;
      lists, place := Moved(lists, b, Bad, false), place[b := On(Bad)];
      nrErasingBlocks := nrErasingBlocks - 1;
    }

    /** Takes the first completed erase for checking. */
    method TakeComplete() returns (b: nat)
      requires Valid() && lists[EraseComplete] != []
      modifies `lists, `place
      ensures Valid() && (forall k: ListId :: k in old(lists)) && b == old(lists)[EraseComplete][0]
      ensures lists == Moved(old(lists), b, EraseChecking, false)
    {
      AllLists();
      b := lists[EraseComplete][0];
      MoveErasing(b, EraseComplete, EraseChecking, false);
    }

    /** The check could not be made: back to the completed list for later. */
    method MarkErasedRefile(b: nat)
      requires Valid() && b in lists[EraseChecking]
      modifies `lists, `place
      ensures Valid() && (forall k: ListId :: k in old(lists)) && lists == Moved(old(lists), b, EraseComplete, false)
    {
      MoveErasing(b, EraseChecking, EraseComplete, false);
    }

    /** The books of a block just erased: all free, less an in-band clean marker. */
    method FreshBooks(jeb: Block) returns (c: Sizes, bk: Block)
      requires cleanmarkerSize <= sectorSize && jeb == Block(ZERO, [])
      ensures bk == FreshBlock(sectorSize, cleanmarkerSize) && c == Plus(sizes, bk.sizes)
    {
      hide BlockOk, LinkRef, FreshBlock;
      FreshOk(sectorSize, cleanmarkerSize);
      bk, c := jeb.(sizes := jeb.sizes.(free := sectorSize)), sizes;
      c := c.(free := c.free + sectorSize);
      if cleanmarkerSize > 0 {
        c := c.(used := c.used + cleanmarkerSize);
        c := c.(free := c.free - cleanmarkerSize);
        bk := LinkRef(bk, sectorSize, Normal, false, cleanmarkerSize);
      }
    }

    /** A checked block becomes free, with its clean marker accounted for. */
    method MarkErased(b: nat)
      requires Valid() && b in lists[EraseChecking]
      modifies `blocks, `sizes, `erasingSize, `nrErasingBlocks, `nrFreeBlocks, `lists, `place
      ensures Valid() && (forall k: ListId :: k in old(lists)) && lists == Moved(old(lists), b, Free, true)
      ensures b < |old(blocks)| && blocks == old(blocks)[b := FreshBlock(sectorSize, cleanmarkerSize)]
      ensures nrFreeBlocks == old(nrFreeBlocks) + 1 && nrErasingBlocks == old(nrErasingBlocks) - 1
    {
      hide BlockOk, Sum, Counters, Partition, Accounts, Moved, LinkRef, FreshBlock;
      AllLists();
      ListPlace(EraseChecking, b);
      GoneFacts(blocks[b], On(EraseChecking), sectorSize, cleanmarkerSize);
      FreshOk(sectorSize, cleanmarkerSize);
      Moving(b, FreshBlock(sectorSize, cleanmarkerSize), EraseChecking, Free, true);
      SomeErasing(EraseChecking, b);
      MovingCounts(b, EraseChecking, Free, true, erasingSize - sectorSize, badSize, nrFreeBlocks + 1,
        nrErasingBlocks - 1);
      var c, bk := FreshBooks(blocks[b]);
      erasingSize, sizes, blocks := erasingSize - sectorSize, c, blocks[b := bk];
      lists, place := Moved(lists, b, Free, true), place[b := On(Free)];
      nrErasingBlocks, nrFreeBlocks := nrErasingBlocks - 1, nrFreeBlocks + 1;
    }

    // ----- Allocation: jffs2/nodemgmt.c -----

    /** Selects a new nextblock, or says what has to happen first. */
    method FindNextblock() returns (r: Outcome)
      requires Valid() && nextblock == None
      modifies `lists, `nextblock, `nrFreeBlocks, `nrErasingBlocks, `place
      ensures Valid() && (forall k: ListId :: k in old(lists))
      ensures r == Ok <==> old(lists)[Free] != []
      ensures r == Ok ==>
                var b := old(lists)[Free][0];
                && nextblock == Some(b) && b < |blocks| && blocks[b] == FreshBlock(sectorSize, cleanmarkerSize)
                && lists == Unlinked(old(lists), b) && nrErasingBlocks == old(nrErasingBlocks)
      ensures r != Ok ==> nextblock == None && lists[Free] == []
      ensures r == NoSpace <==>
              old(nrErasingBlocks == 0 && lists[Free] == [] && lists[Erasable] == [] &&
              lists[ErasablePendingWbuf] == [])
      ensures r == NoSpace ==> nrErasingBlocks == 0 && lists == old(lists)
      ensures r == EraseFirst <==> r != Ok && nrErasingBlocks > 0
    {
      hide BlockOk, Sum, Counters, Partition, Accounts;
      AllLists();
      if lists[Free] == [] {
        if nrErasingBlocks == 0 && lists[Erasable] != [] {
          var ejeb := lists[Erasable][0];
          SetErasable(ejeb);
        }
        AllLists();
        if nrErasingBlocks == 0 && lists[ErasablePendingWbuf] != [] {
          return FlushFirst;
        }
        if nrErasingBlocks == 0 {
          return NoSpace;
        }
        return EraseFirst;
      }
      TakeFree();
      return Ok;
    }

    /** Queues an erasable block for erasure. */
    method SetErasable(b: nat)
      requires Valid() && b in lists[Erasable]
      modifies `lists, `nrErasingBlocks, `place
      ensures Valid() && (forall k: ListId :: k in old(lists)) && lists == Moved(old(lists), b, ErasePending, true)
      ensures nrErasingBlocks == old(nrErasingBlocks) + 1 && (old(lists)[Free] == [] ==> lists[Free] == [])
    {
      hide BlockOk, Sum, Counters, Partition, Accounts, Moved;
      AllLists();
      ListPlace(Erasable, b);
      SpentMoves(blocks[b], On(Erasable), On(ErasePending), sectorSize, cleanmarkerSize);
      MovingSame(b, Erasable, ErasePending, true);
      MovingCounts(b, Erasable, ErasePending, true, erasingSize, badSize, nrFreeBlocks, nrErasingBlocks + 1);
      lists, place := Moved(lists, b, ErasePending, true), place[b := On(ErasePending)];
      nrErasingBlocks := nrErasingBlocks + 1;
    }

    method TakeFree()
      requires Valid() && nextblock == None && lists[Free] != []
      modifies `lists, `nextblock, `nrFreeBlocks, `place
      ensures Valid() && (forall k: ListId :: k in old(lists))
      ensures var b := old(lists)[Free][0];
              && nextblock == Some(b) && b < |blocks| && blocks[b] == FreshBlock(sectorSize, cleanmarkerSize)
              && lists == Unlinked(old(lists), b)
    {
      hide BlockOk, Sum, Counters, Partition, Accounts, Unlinked;
      AllLists();
      var b := lists[Free][0];
      ListPlace(Free, b);
      FreeFacts(blocks[b], sectorSize, cleanmarkerSize);
      FreshOk(sectorSize, cleanmarkerSize);
      FreeCount();
      Taking(b, Free, NextBlock, nrFreeBlocks - 1);
      lists := Unlinked(lists, b);
      nextblock, place := Some(b), place[b := NextBlock];
      nrFreeBlocks := nrFreeBlocks - 1;
    }

    /** Facts about taking block `b` off list `l` to be nextblock or gcblock. */
    lemma Taking(b: nat, l: ListId, p: Place, nf: nat)
      requires Valid() && b in lists[l] && b < |blocks| && BlockOk(blocks[b], p, sectorSize, cleanmarkerSize) && !p.On?
      requires if p == NextBlock then nextblock == None else gcblock == None
      requires !UnderErase(l) && l != ErasePending && l != Bad && nf == nrFreeBlocks - Is(l, Free)
      ensures |place| == |blocks| && place[b] == On(l) && (forall k: ListId :: k in lists)
      ensures Partition(Unlinked(lists, b), if p == NextBlock then Some(b) else nextblock,
                        if p == GcBlock then Some(b) else gcblock, place[b := p])
      ensures Accounts(blocks, place[b := p], sectorSize, cleanmarkerSize)
      ensures Counters(Unlinked(lists, b), sectorSize, erasingSize, badSize, nf, nrErasingBlocks)
    {
      hide BlockOk, Sum;
      AllLists();
      ListPlace(l, b);
      Replaced(b, blocks[b], p);
      assert blocks[b := blocks[b]] == blocks;
      TakeKeeps(lists, nextblock, gcblock, place, b, p);
      hide Counters, Unlinked, Accounts;
      CountersFollow(lists, sectorSize, erasingSize, badSize, nrFreeBlocks, nrErasingBlocks,
                     Unlinked(lists, b), erasingSize, badSize, nf, nrErasingBlocks);
    }

    lemma FreeCount()
      requires Valid()
      ensures nrFreeBlocks == |lists[Free]|
    {
    }

    // ----- Marking nodes obsolete -----

    /** The accounting of jffs2_mark_node_obsolete; returns what was added to the block's dirty space. */
    method ObsoleteRef(b: nat, i: nat) returns (added: nat)
      requires Valid() && b < |blocks| && i < |blocks[b].refs| && blocks[b].refs[i].state.Live() && b !in lists[Free]
      modifies `blocks, `sizes
      ensures Valid() && InUse(b) && !Spent(place[b]) && CanObsolete(old(blocks)[b], sectorSize, i)
      ensures var r := Obsoleted(old(blocks)[b], sectorSize, i, nextblock == Some(b), b in lists[BadUsed]);
              blocks == old(blocks)[b := r.0] && added == r.1
      ensures sizes.unchecked <= old(sizes).unchecked
    {
      hide Sum, Counters, Partition, Accounts, BlockOk, WrittenOff;
      AllLists();
      Standing(b);
      PlaceKnown(b);
      var isNext, onBad := nextblock == Some(b), b in lists[BadUsed];
      ObsoletedOk(blocks[b], place[b], sectorSize, cleanmarkerSize, i, isNext, onBad);
      Replaced(b, Obsoleted(blocks[b], sectorSize, i, isNext, onBad).0, place[b]);
      var refs := blocks[b].refs;
      var freed := RefTotlen(refs, sectorSize - blocks[b].sizes.free, i);
      var jeb, c;
      jeb, c, added := WriteOff(blocks[b].sizes, sizes, refs[i].state == Unchecked, freed, isNext, onBad);
      blocks, sizes := blocks[b := Block(jeb, refs[i := refs[i].(state := Obsolete)])], c;
    }

    /** Moves a block in use from its list to another list of used or spent blocks. */
    method MoveInUse(b: nat, l: ListId)
      requires Valid() && InUse(b) && place[b].On? && !Spent(place[b])
      requires !UnderErase(l) && l != Free && l != Bad
      requires Spent(On(l)) ==> blocks[b].sizes.used == 0 && blocks[b].sizes.unchecked == 0
      modifies `lists, `nrErasingBlocks, `place
      ensures Valid() && (forall k: ListId :: k in old(lists)) && lists == Moved(old(lists), b, l, true)
      ensures nrErasingBlocks == old(nrErasingBlocks) + Is(l, ErasePending) && place == old(place)[b := On(l)]
    {
      hide BlockOk, Sum, Counters, Partition, Accounts, Moved;
      AllLists();
      Standing(b);
      PlaceKnown(b);
      RefiledOk(blocks[b], sectorSize, cleanmarkerSize, place[b], blocks[b].sizes, On(l));
      var ne := nrErasingBlocks + Is(l, ErasePending);
      MovingSame(b, place[b].list, l, true);
      MovingCounts(b, place[b].list, l, true, erasingSize, badSize, nrFreeBlocks, ne);
      hide Spent, Gone, Is, UnderErase;
      lists, place, nrErasingBlocks := Moved(lists, b, l, true), place[b := On(l)], ne;
    }

    /** Puts a gcblock in which nothing is live on a list of spent blocks. */
    method PutGcblock(b: nat, l: ListId)
      requires Valid() && gcblock == Some(b) && InUse(b) && Spent(On(l))
      requires blocks[b].sizes.used == 0 && blocks[b].sizes.unchecked == 0
      modifies `lists, `gcblock, `nrErasingBlocks, `place
      ensures Valid() && gcblock == None && (forall k: ListId :: k in old(lists))
      ensures lists == Linked(old(lists), l, b, true) && nrErasingBlocks == old(nrErasingBlocks) + Is(l, ErasePending)
      ensures place == old(place)[b := On(l)]
    {
      hide BlockOk, Sum, Counters, Partition, Accounts, Linked;
      GcPlace(b);
      var ne := nrErasingBlocks + Is(l, ErasePending);
      Putting(b, l, ne);
      hide Spent, Gone, Is;
      lists, place, gcblock, nrErasingBlocks := Linked(lists, l, b, true), place[b := On(l)], None, ne;
    }

    /** Where a block goes after `added` bytes of it have become dirty; None leaves it where it is. */
    function NewList(b: nat, added: nat, wbufDirty: bool, soon: bool): Option<ListId>
      requires b < |blocks| && added <= blocks[b].sizes.dirty
      reads this
    {
      var z := blocks[b].sizes;
      if nextblock == Some(b) then None
      else if z.used == 0 && z.unchecked == 0 then
        Some(if wbufDirty then ErasablePendingWbuf else if soon then ErasePending else Erasable)
      else if gcblock == Some(b) then None
      else if IsDirty(z.dirty) && !IsDirty(z.dirty - added) then Some(Dirty)
      else if z.dirty >= sectorSize / 2 && !(z.dirty - added >= sectorSize / 2) then Some(VeryDirty)
      else None
    }

    /**
     jffs2_mark_node_obsolete.  `wbufDirty` says whether the write buffer holds data and `soon`
     whether the clock favours erasing at once.  A clean marker in a free block belongs to no
     inode, so nobody marks it.
     */
    method MarkNodeObsolete(b: nat, i: nat, wbufDirty: bool, soon: bool)
      requires Valid() && b < |blocks| && i < |blocks[b].refs| && b !in lists[Free]
      modifies `blocks, `sizes, `lists, `gcblock, `nrErasingBlocks, `place
      ensures Valid() && |blocks| == |old(blocks)| &&
              (forall k :: 0 <= k < |blocks| && k != b ==> blocks[k] == old(blocks)[k])
      ensures !old(blocks)[b].refs[i].state.Live() ==>
              blocks == old(blocks) && lists == old(lists) && gcblock == old(gcblock)
      ensures old(blocks)[b].refs[i].state.Live() ==>
                && CanObsolete(old(blocks)[b], sectorSize, i)
                && blocks[b] == Obsoleted(old(blocks)[b], sectorSize, i, nextblock
                == Some(b), b in old(lists)[BadUsed]).0
                && (blocks[b].sizes.used == 0 && blocks[b].sizes.unchecked == 0 && nextblock != Some(b) ==>
                  b in lists[if wbufDirty then ErasablePendingWbuf else if soon then ErasePending else Erasable])
    {
      hide BlockOk, Sum, Counters, Partition, Accounts, Obsoleted, IsDirty;
      AllLists();
      if !blocks[b].refs[i].state.Live() {
        return;
      }
      var added := ObsoleteRef(b, i);
      ObsoletedGrowth(old(blocks)[b], sectorSize, i, nextblock == Some(b), b in lists[BadUsed]);
      Refile(b, added, wbufDirty, soon);
    }

    method Refile(b: nat, added: nat, wbufDirty: bool, soon: bool)
      requires Valid() && InUse(b) && !Spent(place[b]) && added <= blocks[b].sizes.dirty
      modifies `lists, `gcblock, `nrErasingBlocks, `place
      ensures Valid() && (forall k: ListId :: k in lists)
      ensures var l := old(NewList(b, added, wbufDirty, soon));
              if l == None then lists == old(lists) && gcblock == old(gcblock) else b in lists[l.value]
    {
      hide BlockOk, Sum, Counters, Partition, Accounts, IsDirty, Moved, Linked, Is;
      AllLists();
      PlaceKnown(b);
      var z := blocks[b].sizes;
      if nextblock == Some(b) {
      } else if z.used == 0 && z.unchecked == 0 {
        RefileSpent(b, if wbufDirty then ErasablePendingWbuf else if soon then ErasePending else Erasable);
      } else if gcblock == Some(b) {
      } else if IsDirty(z.dirty) && !IsDirty(z.dirty - added) {
        MoveInUse(b, Dirty);
        AllLists();
        PlaceKnown(b);
      } else if z.dirty >= sectorSize / 2 && !(z.dirty - added >= sectorSize / 2) {
        MoveInUse(b, VeryDirty);
        AllLists();
        PlaceKnown(b);
      }
    }

    /** A block in which nothing is live any more leaves gcblock or its list. */
    method RefileSpent(b: nat, l: ListId)
      requires Valid() && InUse(b) && !Spent(place[b]) && nextblock != Some(b) && Spent(On(l))
      requires blocks[b].sizes.used == 0 && blocks[b].sizes.unchecked == 0
      modifies `lists, `gcblock, `nrErasingBlocks, `place
      ensures Valid() && (forall k: ListId :: k in lists) && b in lists[l]
    {
      hide BlockOk, Sum, Counters, Partition, Accounts, Moved, Linked, Is;
      PlaceKnown(b);
      if gcblock == Some(b) {
        PutGcblock(b, l);
      } else {
        MoveInUse(b, l);
      }
      AllLists();
      PlaceKnown(b);
    }

    /** Records a node just written at the end of nextblock; a block filled without dirt goes to the clean list. */
    method AddPhysicalNodeRef(b: nat, ofs: nat, state: RefState, hasIno: bool, len: nat) returns (ok: bool)
      requires Valid() && b < |blocks|
      requires Accepted(b, ofs, state) ==>
               len <= blocks[b].sizes.free && (state.Live() || nextblock == None ==> len > 0)
      requires nextblock == None && state == Obsolete ==> InUse(b) && ofs + blocks[b].sizes.free == sectorSize
      requires gcblock.Some? ==> state != Unchecked
      modifies `blocks, `sizes, `lists, `nextblock, `place
      ensures Valid() && ok == old(Accepted(b, ofs, state)) && (forall k: ListId :: k in old(lists))
      ensures !ok ==> blocks == old(blocks) && lists == old(lists) && nextblock == old(nextblock)
      ensures ok ==>
                old(blocks)[b].sizes.free <= sectorSize &&
                blocks == old(blocks)[b := LinkRef(old(blocks)[b], sectorSize, state, hasIno, len)]
      ensures ok ==> if old(nextblock) == Some(b) && FullAndClean(blocks[b])
                     then nextblock == None && lists == Linked(old(lists), Clean, b, true)
                     else nextblock == old(nextblock) && lists == old(lists)
    {
      hide BlockOk, Sum, Counters, Partition, Accounts, LinkRef;
      AllLists();
      if (nextblock.Some? || state != Obsolete) && (nextblock != Some(b) || ofs + blocks[b].sizes.free != sectorSize) {
        return false;
      }
      Standing(b);
      if nextblock == None {
        AcceptedFree(blocks[b], place[b], sectorSize, cleanmarkerSize);
        LinkNodeRef(b, state, hasIno, len);
        return true;
      }
      NextPlace(b);
      LinkedNextOk(blocks[b], sectorSize, cleanmarkerSize, state, hasIno, len);
      LinkNodeRef(b, state, hasIno, len);
      NextInUse(b);
      if FullAndClean(blocks[b]) {
        PutNextblock(b, Clean);
      }
      return true;
    }

    /** A node goes to the write point of nextblock; an obsolete one goes anywhere when there is no nextblock. */
    predicate Accepted(b: nat, ofs: nat, state: RefState)
      requires b < |blocks|
      reads this
    {
      AtWritePoint(b, ofs) || (nextblock == None && state == Obsolete)
    }

    predicate AtWritePoint(b: nat, ofs: nat)
      requires b < |blocks|
      reads this
    {
      nextblock == Some(b) && ofs + blocks[b].sizes.free == sectorSize
    }

    /** Finds room for `minsize` bytes, closing nextblock if it is too full; without summary nodes. */
    method DoReserveSpace(minsize: nat) returns (r: Outcome, len: nat)
      requires Valid()
      modifies this
      ensures Valid() && |blocks| == |old(blocks)|
      ensures r == Ok ==> nextblock.Some? && nextblock.value < |blocks| && len == blocks[nextblock.value].sizes.free
      ensures r == Ok ==> minsize <= len || len == sectorSize - cleanmarkerSize
      ensures old(RoomInNextblock(minsize)) ==> r == Ok && nextblock == old(nextblock)
      ensures r == NoSpace ==> nrErasingBlocks == 0 && nextblock == None
    {
      hide BlockOk, Sum, Counters, Partition, Accounts;
      len := 0;
      if nextblock.Some? {
        var b := nextblock.value;
        NextPlace(b);
        if minsize > blocks[b].sizes.free {
          WasteAndClose(b);
        }
      }
      if nextblock.None? {
        r := FindNextblock();
        if r != Ok {
          return;
        }
        FreshOk(sectorSize, cleanmarkerSize);
      }
      r := Ok;
      var b := nextblock.value;
      NextPlace(b);
      len := blocks[b].sizes.free;
      DropCleanmarker(b);
    }

    predicate RoomInNextblock(minsize: nat)
      reads this
    {
      nextblock.Some? && nextblock.value < |blocks| && minsize <= blocks[nextblock.value].sizes.free
    }

    method WasteAndClose(b: nat)
      requires Valid() && nextblock == Some(b) && b < |blocks|
      modifies `blocks, `sizes, `lists, `nextblock, `place
      ensures Valid() && nextblock == None && |blocks| == |old(blocks)|
    {
      hide BlockOk, Sum, Counters, Partition, Accounts;
      NextPlace(b);
      FreeBound(blocks[b], NextBlock, sectorSize, cleanmarkerSize);
      WasteNextblock(b, blocks[b].sizes.free);
      NextInUse(b);
      CloseNextblock();
    }

    /** The first node written makes the clean marker obsolete. */
    method DropCleanmarker(b: nat)
      requires Valid() && nextblock == Some(b) && b < |blocks|
      modifies `blocks, `sizes, `lists, `gcblock, `nrErasingBlocks, `place
      ensures Valid() && nextblock == Some(b) && |blocks| == |old(blocks)| &&
              blocks[b].sizes.free == old(blocks)[b].sizes.free
    {
      hide BlockOk, Sum, Counters, Partition, Accounts, Obsoleted;
      NextPlace(b);
      AllLists();
      PlaceKnown(b);
      UsedHasRefs(blocks[b], NextBlock, sectorSize, cleanmarkerSize);
      if cleanmarkerSize > 0 && blocks[b].sizes.used == cleanmarkerSize && !blocks[b].refs[0].hasIno {
        if blocks[b].refs[0].state.Live() {
          ObsoletedOk(blocks[b], NextBlock, sectorSize, cleanmarkerSize, 0, true, b in lists[BadUsed]);
          ObsoletedGrowth(blocks[b], sectorSize, 0, true, b in lists[BadUsed]);
        }
        MarkNodeObsolete(b, 0, false, false);
      }
    }

    // ----- Garbage collection: jffs2/gc.c -----

    /** The list to collect from: `n` is the clock modulo 128. */
    function PickList(n: nat): Option<ListId>
      requires forall l: ListId :: l in lists
      reads this
    {
      if lists[BadUsed] != [] && nrFreeBlocks > resvBlocksGcbad then Some(BadUsed)
      else if n < 50 && lists[Erasable] != [] then Some(Erasable)
      else if n < 110 && lists[VeryDirty] != [] then Some(VeryDirty)
      else if n < 126 && lists[Dirty] != [] then Some(Dirty)
      else if lists[Clean] != [] then Some(Clean)
      else if lists[Dirty] != [] then Some(Dirty)
      else if lists[VeryDirty] != [] then Some(VeryDirty)
      else if lists[Erasable] != [] then Some(Erasable)
      else None
    }

    lemma Picked(n: nat)
      requires forall l: ListId :: l in lists
      ensures PickList(n).Some? ==>
                var l := PickList(n).value;
                lists[l] != [] && (l == BadUsed || l == Erasable || l == VeryDirty || l == Dirty || l == Clean)
    {
    }

    /** Something to flush before there may be something to collect. */
    predicate OnlyPending(n: nat)
      requires forall l: ListId :: l in lists
      reads this
    {
      PickList(n) == None && lists[ErasablePendingWbuf] != []
    }

    /**
     * Picks the next block to collect, after a flush if blocks wait for nothing else.  It has references to start
     * from, and all its waste is dirt.
     */
    method FindGcBlock(n: nat, waste: nat, soon: seq<bool>) returns (r: Option<nat>)
      requires Valid() && gcblock == None && sizes.unchecked == 0 && (forall l: ListId :: l in lists)
      requires nextblock.Some? && nextblock.value < |blocks| ==> waste <= blocks[nextblock.value].sizes.free
      modifies `blocks, `sizes, `lists, `gcblock, `nrErasingBlocks, `place
      ensures Valid() && r == gcblock && |blocks| == |old(blocks)| && (forall l: ListId :: l in lists)
      ensures r == None ==> PickList(n) == None && lists[ErasablePendingWbuf] == []
      ensures !old(OnlyPending(n)) ==> (r == None <==> old(PickList(n)) == None)
      ensures !old(OnlyPending(n)) && r.Some? ==>
                var b := old(lists)[old(PickList(n)).value][0];
                && r == Some(b) && b < |old(blocks)| && lists == Unlinked(old(lists), b)
                && blocks == old(blocks)[b := AllDirty(old(blocks)[b])]
      ensures r.Some? ==> r.value < |blocks| && blocks[r.value].refs != [] && blocks[r.value].sizes.wasted == 0
    {
      hide BlockOk, Sum, Counters, Partition, Accounts, Unlinked;
      if PickList(n) == None && lists[ErasablePendingWbuf] != [] {
        hide PickList;
        FlushWbufPad(waste, soon);
      }
      hide PickList;
      r := TakeGcBlock(n);
      AllLists();
    }

    method TakeGcBlock(n: nat) returns (r: Option<nat>)
      requires Valid() && gcblock == None && sizes.unchecked == 0 && (forall l: ListId :: l in lists)
      modifies `blocks, `sizes, `lists, `gcblock, `place
      ensures Valid() && r == gcblock && |blocks| == |old(blocks)|
      ensures r == None <==> old(PickList(n)) == None
      ensures r == None ==> lists == old(lists)
      ensures r.Some? ==>
                var b := old(lists)[old(PickList(n)).value][0];
                && r == Some(b) && b < |old(blocks)| && lists == Unlinked(old(lists), b)
                && blocks == old(blocks)[b := AllDirty(old(blocks)[b])] && blocks[b].refs != []
    {
      hide BlockOk, Sum, Counters, Partition, Accounts, Unlinked;
      var l := PickList(n);
      Picked(n);
      hide PickList;
      if l == None {
        return None;
      }
      var b := lists[l.value][0];
      ListPlace(l.value, b);
      BecomesGc(blocks[b], l.value, sectorSize, cleanmarkerSize);
      Taking(b, l.value, GcBlock, nrFreeBlocks);
      lists, gcblock, place := Unlinked(lists, b), Some(b), place[b := GcBlock];
      if blocks[b].sizes.wasted > 0 {
        ConvertWasted(b);
      }
      return Some(b);
    }

    /** The end of a collection pass: a collected block in which nothing is used is queued for erasure. */
    method EraseGcBlock()
      requires Valid()
      modifies `lists, `gcblock, `nrErasingBlocks, `place
      ensures Valid() && (forall k: ListId :: k in old(lists))
      ensures if old(gcblock).Some? && old(gcblock).value < |blocks| && blocks[old(gcblock).value].sizes.used == 0
              then gcblock == None && lists == Linked(old(lists), ErasePending, old(gcblock).value, true)
              else gcblock == old(gcblock) && lists == old(lists)
    {
      hide BlockOk, Sum, Counters, Partition, Accounts, Linked;
      AllLists();
      if gcblock.Some? {
        var b := gcblock.value;
        GcPlace(b);
        if blocks[b].sizes.used == 0 {
          GcFacts(blocks[b], sectorSize, cleanmarkerSize);
          Replaced(b, blocks[b], GcBlock);
          PutGcblock(b, ErasePending);
        }
      }
    }

    // ----- The write buffer's part: jffs2/wbuf.c -----

    /** A padding flush wastes the rest of the page in nextblock. */
    method FlushWbufPad(waste: nat, soon: seq<bool>)
      requires Valid() &&
               (nextblock.Some? && nextblock.value < |blocks| ==> waste <= blocks[nextblock.value].sizes.free)
      modifies `blocks, `sizes, `lists, `nrErasingBlocks, `place
      ensures Valid() && (forall k: ListId :: k in lists) && lists[ErasablePendingWbuf] == []
      ensures |blocks| == |old(blocks)| && (nextblock == None ==> blocks == old(blocks))
      ensures nextblock.Some? && nextblock.value < |old(blocks)| &&
              old(blocks)[nextblock.value].sizes.free <= sectorSize
                && waste <= old(blocks)[nextblock.value].sizes.free ==>
                blocks == old(blocks)[nextblock.value := Wasted(old(blocks)[nextblock.value], sectorSize, waste)]
      ensures sizes.unchecked == old(sizes).unchecked
    {
      hide BlockOk, Sum, Counters, Partition, Accounts;
      if nextblock.Some? {
        var b := nextblock.value;
        NextPlace(b);
        FreeBound(blocks[b], NextBlock, sectorSize, cleanmarkerSize);
        WasteNextblock(b, waste);
      }
      RefileWbufBlocks(soon);
    }

    /** Blocks that waited for the buffer to be written may now be erased. */
    method RefileWbufBlocks(soon: seq<bool>)
      requires Valid()
      modifies `lists, `nrErasingBlocks, `place
      ensures Valid() && (forall k: ListId :: k in lists) && lists[ErasablePendingWbuf] == []
    {
      hide BlockOk, Sum, Counters, Partition, Accounts, Moved;
      AllLists();
      var n := 0;
      while lists[ErasablePendingWbuf] != []
        invariant Valid() && (forall k: ListId :: k in lists)
        decreases |lists[ErasablePendingWbuf]|
      {
        var b := lists[ErasablePendingWbuf][0];
        RefileWbufBlock(b, n < |soon| && soon[n]);
        n := n + 1;
      }
    }

    method RefileWbufBlock(b: nat, soon: bool)
      requires Valid() && b in lists[ErasablePendingWbuf]
      modifies `lists, `nrErasingBlocks, `place
      ensures Valid() && (forall k: ListId :: k in lists) &&
              |lists[ErasablePendingWbuf]| < |old(lists)[ErasablePendingWbuf]|
    {
      hide BlockOk, Sum, Counters, Partition, Accounts, Moved;
      AllLists();
      var l := if soon then ErasePending else Erasable;
      ListPlace(ErasablePendingWbuf, b);
      UsedLists(blocks[b], On(ErasablePendingWbuf), sectorSize, cleanmarkerSize);
      SpentMoves(blocks[b], On(ErasablePendingWbuf), On(l), sectorSize, cleanmarkerSize);
      MovingSame(b, ErasablePendingWbuf, l, true);
      MovingCounts(b, ErasablePendingWbuf, l, true, erasingSize, badSize, nrFreeBlocks,
        nrErasingBlocks + Is(l, ErasePending));
      lists, place := Moved(lists, b, l, true), place[b := On(l)];
      nrErasingBlocks := nrErasingBlocks + (if l == ErasePending then 1 else 0);
    }

    // ----- Checking: jffs2/readinode.c -----

    /** A node whose data passed its check counts as used from now on. */
    method CheckNode(b: nat, i: nat)
      requires Valid() && b < |blocks| && i < |blocks[b].refs| && blocks[b].refs[i].state == Unchecked &&
               b !in lists[Free]
      modifies `blocks, `sizes
      ensures Valid() && CanObsolete(old(blocks)[b], sectorSize, i)
      ensures blocks == old(blocks)[b := Checked(old(blocks)[b], sectorSize, i)]
    {
      hide Sum, Counters, Partition, Accounts, BlockOk;
      AllLists();
      Standing(b);
      PlaceKnown(b);
      CheckedOk(blocks[b], place[b], sectorSize, cleanmarkerSize, i);
      Replaced(b, Checked(blocks[b], sectorSize, i), place[b]);
      var refs := blocks[b].refs;
      var len := RefTotlen(refs, sectorSize - blocks[b].sizes.free, i);
      var jeb, c := blocks[b].sizes, sizes;
      jeb := jeb.(used := jeb.used + len);
      jeb := jeb.(unchecked := jeb.unchecked - len);
      c := c.(used := c.used + len);
      c := c.(unchecked := c.unchecked - len);
      blocks, sizes := blocks[b := Block(jeb, refs[i := refs[i].(state := Pristine)])], c;
    }

    // ----- What follows from the books -----

    /** The sum at the head of jffs2_thread_should_wake and why it is right: no pending block is in it. */
    lemma DirtyIsDirty()
      requires Valid() && lists[ErasePending] == [] && lists[EraseComplete] == []
      ensures sizes.dirty + erasingSize - nrErasingBlocks * sectorSize == sizes.dirty
    {
      hide Sum, Partition, Accounts;
      AllLists();
      assert nrErasingBlocks == BeingErased(lists);
      assert sectorSize * BeingErased(lists) == nrErasingBlocks * sectorSize;
    }

    method ThreadShouldWake(gctrigger: nat, nospcDirty: nat, vdirtyTrigger: nat) returns (wake: bool)
      requires Valid() && (forall k: ListId :: k in lists)
      ensures wake <==> || lists[EraseComplete] != [] || lists[ErasePending] != [] || sizes.unchecked > 0
                        || (nrFreeBlocks + nrErasingBlocks < gctrigger && sizes.dirty > nospcDirty)
                        || (vdirtyTrigger > 0 && |lists[VeryDirty]| >= vdirtyTrigger)
    {
      hide Sum, Counters, Partition, Accounts;
      if lists[EraseComplete] != [] || lists[ErasePending] != [] {
        return true;
      }
      if sizes.unchecked > 0 {
        return true;
      }
      DirtyIsDirty();
      var dirty := sizes.dirty + erasingSize - nrErasingBlocks * sectorSize;
      wake := nrFreeBlocks + nrErasingBlocks < gctrigger && dirty > nospcDirty;
      var nrVeryDirty := 0;
      while nrVeryDirty < |lists[VeryDirty]|
        invariant nrVeryDirty <= |lists[VeryDirty]|
        invariant vdirtyTrigger > 0 ==> nrVeryDirty < vdirtyTrigger
        invariant wake == (nrFreeBlocks + nrErasingBlocks < gctrigger && sizes.dirty > nospcDirty)
      {
        nrVeryDirty := nrVeryDirty + 1;
        if nrVeryDirty == vdirtyTrigger {
          wake := true;
          break;
        }
      }
    }

    /** No block is in two places, twice on one list, or nowhere. */
    lemma OnePlace(b: nat)
      requires Valid() && b < |blocks|
      ensures nextblock == Some(b) || gcblock == Some(b) || (exists l: ListId :: l in lists && b in lists[l])
      ensures forall l: ListId, k: ListId :: l in lists && k in lists && b in lists[l] && b in lists[k] ==> l == k
      ensures forall l: ListId, i, j :: l in lists && 0 <= i < j < |lists[l]| ==> lists[l][i] != lists[l][j]
      ensures forall l: ListId :: l in lists && b in lists[l] ==> nextblock != Some(b) && gcblock != Some(b)
      ensures nextblock == Some(b) ==> gcblock != Some(b)
    {
      hide Sum, Counters;
      assert |place| == |blocks|;
      hide Accounts;
      PlacedOnce(lists, nextblock, gcblock, place, b);
      hide Partition;
    }

    /** In every block in use what is written off is exactly what its obsolete references cover. */
    lemma DirtIsObsolete(b: nat)
      requires Valid() && InUse(b)
      ensures blocks[b].sizes.free <= sectorSize
      ensures blocks[b].sizes.dirty + blocks[b].sizes.wasted
              == SumLen(blocks[b].refs, sectorSize - blocks[b].sizes.free, ObsoleteSpace)
    {
      hide Sum, Counters, Partition;
      Standing(b);
      SumLenWhole(blocks[b].refs, sectorSize - blocks[b].sizes.free);
    }

    // ----- Runs -----

    /** One step of the file system, taken when it applies; what the caller decides is in the operation. */
    method Step(op: Op)
      requires Valid()
      modifies this
      ensures Valid() && |blocks| == |old(blocks)|
    {
      hide BlockOk, Sum, Counters, Partition, Accounts, Moved, Linked, Unlinked, Obsoleted, IsDirty;
      AllLists();
      match op {
        case Reserve(minsize) =>
          var _, _ := DoReserveSpace(minsize);
        case Write(state, hasIno, len) =>
          if nextblock.Some? {
            var b := nextblock.value;
            NextPlace(b);
            FreeBound(blocks[b], NextBlock, sectorSize, cleanmarkerSize);
            if 0 < len <= blocks[b].sizes.free && (gcblock.None? || state != Unchecked) {
              var _ := AddPhysicalNodeRef(b, sectorSize - blocks[b].sizes.free, state, hasIno, len);
            }
          }
        case Obsolesce(b, i, wbufDirty, soon) =>
          if b < |blocks| && i < |blocks[b].refs| && b !in lists[Free] {
            MarkNodeObsolete(b, i, wbufDirty, soon);
          }
        case Check(b, i) =>
          if b < |blocks| && i < |blocks[b].refs| && blocks[b].refs[i].state == Unchecked && b !in lists[Free] {
            CheckNode(b, i);
          }
        case Collect(n, padding, soon) =>
          if nextblock.Some? {
            NextPlace(nextblock.value);
          }
          if gcblock == None && sizes.unchecked == 0 &&
              (nextblock.None? || padding <= blocks[nextblock.value].sizes.free) {
            var _ := FindGcBlock(n, padding, soon);
          }
        case WriteObsolete(b, len) =>
          if nextblock == None && b < |blocks| && InPlay(b) && 0 < len <= blocks[b].sizes.free {
            PlayInUse(b);
            Standing(b);
            AcceptedFree(blocks[b], place[b], sectorSize, cleanmarkerSize);
            var _ := AddPhysicalNodeRef(b, sectorSize - blocks[b].sizes.free, Obsolete, false, len);
          }
        case Collected =>
          EraseGcBlock();
        case Flush(waste, soon) =>
          if nextblock.Some? {
            NextPlace(nextblock.value);
          }
          if nextblock.None? || waste <= blocks[nextblock.value].sizes.free {
            FlushWbufPad(waste, soon);
          }
        case BeginErase =>
          if lists[ErasePending] != [] {
            StartErase();
          }
        case EndErase(b, result) =>
          if b in lists[Erasing] {
            match result {
              case Done => EraseSucceeded(b);
              case Retry => EraseRefile(b, Erasing);
              case Again => EraseRefile(b, Erasing);
              case Failed => EraseFailed(b, Erasing);
            }
          }
        case CheckErased(result) =>
          if lists[EraseComplete] != [] {
            CheckErasedBlock(result);
          }
      }
    }

    /** On a list of blocks in use, or being collected. */
    predicate InPlay(b: nat)
      requires (forall l: ListId :: l in lists) && b < |blocks|
      reads this
    {
      blocks[b].refs != [] && b !in lists[Free]
    }

    lemma PlayInUse(b: nat)
      requires Valid() && (forall l: ListId :: l in lists) && b < |blocks| && InPlay(b)
      ensures InUse(b)
    {
      hide Sum, Counters, RefsOk;
      Standing(b);
      PlaceKnown(b);
    }

    method CheckErasedBlock(result: EraseResult)
      requires Valid() && lists[EraseComplete] != []
      modifies this
      ensures Valid() && |blocks| == |old(blocks)|
    {
      hide BlockOk, Sum, Counters, Partition, Accounts;
      var b := TakeComplete();
      AllLists();
      match result {
        case Done => MarkErased(b);
        case Retry => MarkErasedRefile(b);
        case Again => EraseRefile(b, EraseChecking);
        case Failed => EraseFailed(b, EraseChecking);
      }
    }

    /** Whatever the sequence of steps, the books balance at its end. */
    method Run(ops: seq<Op>)
      requires Valid()
      modifies this
      ensures Valid() && |blocks| == |old(blocks)| && Balanced()
    {
      for k := 0 to |ops|
        invariant Valid() && |blocks| == |old(blocks)|
      {
        Step(ops[k]);
      }
      Balances();
    }

    /** What the checks of debug.c demand, said of the fields alone. */
    ghost predicate Balanced()
      reads this
    {
      && (forall l: ListId :: l in lists)
      && sizes == Sum(blocks) && sizes.Total() + erasingSize + badSize == flashSize
      && nrFreeBlocks == |lists[Free]|
      && nrErasingBlocks == |lists[ErasePending]| + |lists[Erasing]| + |lists[EraseChecking]| + |lists[EraseComplete]|
      && forall b :: 0 <= b < |blocks| ==>
           if b in lists[Erasing] || b in lists[EraseChecking] || b in lists[EraseComplete] || b in lists[Bad]
               then blocks[b] == Block(ZERO, [])
           else blocks[b].sizes.Total() == sectorSize && RefsOk(blocks[b], sectorSize)
    }

    lemma Balances()
      requires Valid()
      ensures Balanced()
    {
      hide Sum, RefsOk;
      forall b | 0 <= b < |blocks|
        ensures if b in lists[Erasing] || b in lists[EraseChecking] || b in lists[EraseComplete] || b in lists[Bad]
                then blocks[b] == Block(ZERO, [])
                else blocks[b].sizes.Total() == sectorSize && RefsOk(blocks[b], sectorSize)
      {
        Standing(b);
        GoneKnown(b);
      }
    }

    lemma GoneKnown(b: nat)
      requires Valid() && b < |blocks|
      ensures |place| == |blocks| &&
              (Gone(place[b]) <==>
              b in lists[Erasing] || b in lists[EraseChecking] || b in lists[EraseComplete] || b in lists[Bad])
    {
      hide BlockOk, Sum, Counters;
      assert Agrees(b in lists[Erasing], place, b, On(Erasing)) &&
             Agrees(b in lists[EraseChecking], place, b, On(EraseChecking));
      assert Agrees(b in lists[EraseComplete], place, b, On(EraseComplete)) &&
             Agrees(b in lists[Bad], place, b, On(Bad));
    }

    lemma PlaceKnown(b: nat)
      requires Valid() && b < |blocks|
      ensures |place| == |blocks| && (b in lists[Free] <==> place[b] == On(Free))
      ensures (nextblock == Some(b) <==> place[b] == NextBlock) && (gcblock == Some(b) <==> place[b] == GcBlock)
      ensures place[b].On? ==> b in lists[place[b].list]
    {
      hide BlockOk, Sum, Counters;
      assert Agrees(b in lists[Free], place, b, On(Free));
      assert Agrees(nextblock == Some(b), place, b, NextBlock) && Agrees(gcblock == Some(b), place, b, GcBlock);
      if place[b].On? {
        assert Agrees(b in lists[place[b].list], place, b, On(place[b].list));
      }
    }
  }

  /** From an erased flash on, whatever is done, every byte of it is in one of the counts. */
  method Life(sector: nat, cleanmarker: nat, n: nat, resv: nat, ops: seq<Op>) returns (sizes: Sizes, erasing: nat,
              bad: nat)
    requires cleanmarker <= sector
    ensures sizes.Total() + erasing + bad == n * sector
  {
    var c := new SuperBlock(sector, cleanmarker, n, resv);
    c.Run(ops);
    sizes, erasing, bad := c.sizes, c.erasingSize, c.badSize;
  }

  /** Writes off `freed` bytes of a block, in its own sizes and, alike, in the superblock's. */
  method WriteOff(jeb0: Sizes, c0: Sizes, unchecked: bool, freed: nat, isNext: bool, onBad: bool)
    returns (jeb: Sizes, c: Sizes, added: nat)
    requires c0.Covers(jeb0) && freed <= if unchecked then jeb0.unchecked else jeb0.used
    ensures (jeb, added) == WrittenOff(jeb0, unchecked, freed, isNext, onBad)
    ensures Plus(c, jeb0) == Plus(c0, jeb) && jeb.Total() == jeb0.Total() && jeb.unchecked <= jeb0.unchecked
  {
    hide IsDirty;
    jeb, c := jeb0, c0;
    if unchecked {
      jeb := jeb.(unchecked := jeb.unchecked - freed);
      c := c.(unchecked := c.unchecked - freed);
    } else {
      jeb := jeb.(used := jeb.used - freed);
      c := c.(used := c.used - freed);
    }
    if (jeb.dirty > 0 || IsDirty(jeb.wasted + freed)) && !isNext {
      added := freed;
      jeb := jeb.(dirty := jeb.dirty + freed);
      c := c.(dirty := c.dirty + freed);
      if jeb.wasted > 0 {
        if onBad {
          added := 0;
        } else {
          added := added + jeb.wasted;
          jeb := jeb.(dirty := jeb.dirty + jeb.wasted);
          c := c.(dirty := c.dirty + jeb.wasted);
          c := c.(wasted := c.wasted - jeb.wasted);
          jeb := jeb.(wasted := 0);
        }
      }
    } else {
      added := 0;
      jeb := jeb.(wasted := jeb.wasted + freed);
      c := c.(wasted := c.wasted + freed);
    }
  }

  /**
   * Freed bytes are dirty once there is enough dirt for collection to look at, and wasted until
   * then or in nextblock.
   */
  function WrittenOff(jeb: Sizes, unchecked: bool, freed: nat, isNext: bool, onBad: bool): (Sizes, nat)
    requires freed <= if unchecked then jeb.unchecked else jeb.used
  {
    var z := if unchecked then jeb.(unchecked := jeb.unchecked - freed) else jeb.(used := jeb.used - freed);
    if (z.dirty > 0 || IsDirty(z.wasted + freed)) && !isNext then
      if z.wasted > 0 && !onBad
      then (z.(dirty := z.dirty + freed + z.wasted, wasted := 0), freed + z.wasted)
      else (z.(dirty := z.dirty + freed), if z.wasted > 0 then 0 else freed)
    else (z.(wasted := z.wasted + freed), 0)
  }

  /** Subtracting the length of reference `i` from its class does not underflow. */
  ghost predicate CanObsolete(bk: Block, sector: nat, i: nat) {
    && bk.sizes.free <= sector && i < |bk.refs| && bk.refs[i].state.Live()
    && var len := RefTotlen(bk.refs, sector - bk.sizes.free, i);
      0 < len <= if bk.refs[i].state == Unchecked then bk.sizes.unchecked else bk.sizes.used
  }

  /** The block after reference `i` has been marked obsolete, and the growth of its dirty space. */
  ghost function Obsoleted(bk: Block, sector: nat, i: nat, isNext: bool, onBad: bool): (Block, nat)
    requires CanObsolete(bk, sector, i)
  {
    var r := WrittenOff(bk.sizes, bk.refs[i].state
        == Unchecked, RefTotlen(bk.refs, sector - bk.sizes.free, i), isNext, onBad);
    (Block(r.0, bk.refs[i := bk.refs[i].(state := Obsolete)]), r.1)
  }

  lemma ObsoletedGrowth(bk: Block, sector: nat, i: nat, isNext: bool, onBad: bool)
    requires CanObsolete(bk, sector, i)
    ensures var r := Obsoleted(bk, sector, i, isNext, onBad);
            r.1 <= r.0.sizes.dirty && r.0.refs != [] && r.0.sizes.free == bk.sizes.free
  {
  }

  /** A live reference stands in a block in use, its bytes are in that block's sizes, and marking it keeps the books. */
  lemma ObsoletedOk(bk: Block, p: Place, sector: nat, cleanmarker: nat, i: nat, isNext: bool, onBad: bool)
    requires BlockOk(bk, p, sector, cleanmarker) && p != On(Free)
    requires i < |bk.refs| && bk.refs[i].state.Live()
    ensures !Gone(p) && !Spent(p) && CanObsolete(bk, sector, i)
    ensures BlockOk(Obsoleted(bk, sector, i, isNext, onBad).0, p, sector, cleanmarker)
    ensures Obsoleted(bk, sector, i, isNext, onBad).0.refs != []
  {
    hide SumLen;
    var end := sector - bk.sizes.free;
    SumLenBound(bk.refs, end, bk.refs[i].state.Class(), i);
    assert RefTotlen(bk.refs, end, i) > 0;
    SumLenMark(bk.refs, end, UsedSpace, i, Obsolete);
    SumLenMark(bk.refs, end, UncheckedSpace, i, Obsolete);
    TiledMark(bk.refs, end, i, Obsolete);
  }

  lemma TiledMark(refs: seq<Ref>, end: nat, i: nat, s: RefState)
    requires Tiled(refs, end) && i < |refs| && refs[i].state.Live()
    ensures Tiled(refs[i := refs[i].(state := s)], end)
  {
    var refs' := refs[i := refs[i].(state := s)];
    assert forall k :: 0 <= k < |refs| ==> RefEnd(refs', end, k) == RefEnd(refs, end, k);
  }

  ghost function Checked(bk: Block, sector: nat, i: nat): Block
    requires CanObsolete(bk, sector, i) && bk.refs[i].state == Unchecked
  {
    var len := RefTotlen(bk.refs, sector - bk.sizes.free, i);
    Block(bk.sizes.(used := bk.sizes.used + len, unchecked := bk.sizes.unchecked - len),
          bk.refs[i := bk.refs[i].(state := Pristine)])
  }

  lemma CheckedOk(bk: Block, p: Place, sector: nat, cleanmarker: nat, i: nat)
    requires BlockOk(bk, p, sector, cleanmarker) && p != On(Free)
    requires i < |bk.refs| && bk.refs[i].state == Unchecked
    ensures CanObsolete(bk, sector, i) && BlockOk(Checked(bk, sector, i), p, sector, cleanmarker)
  {
    hide SumLen;
    var end := sector - bk.sizes.free;
    SumLenBound(bk.refs, end, UncheckedSpace, i);
    assert RefTotlen(bk.refs, end, i) > 0;
    SumLenMark(bk.refs, end, UsedSpace, i, Pristine);
    SumLenMark(bk.refs, end, UncheckedSpace, i, Pristine);
    TiledMark(bk.refs, end, i, Pristine);
  }

  predicate FullAndClean(bk: Block) {
    bk.sizes.free == 0 && bk.sizes.dirty == 0 && !IsDirty(bk.sizes.wasted)
  }

  lemma FreeBound(bk: Block, p: Place, sector: nat, cleanmarker: nat)
    requires BlockOk(bk, p, sector, cleanmarker)
    ensures bk.sizes.free <= sector
  {
  }

  lemma UsedHasRefs(bk: Block, p: Place, sector: nat, cleanmarker: nat)
    requires BlockOk(bk, p, sector, cleanmarker)
    ensures bk.sizes.used > 0 ==> bk.refs != []
  {
  }

  lemma UsedLists(bk: Block, p: Place, sector: nat, cleanmarker: nat)
    requires BlockOk(bk, p, sector, cleanmarker) && !Gone(p) && p != On(Free) && p != NextBlock && p != On(ErasePending)
    ensures bk.refs != []
  {
  }

  lemma BecomesGc(bk: Block, l: ListId, sector: nat, cleanmarker: nat)
    requires BlockOk(bk, On(l), sector, cleanmarker)
    requires l == BadUsed || l == Erasable || l == VeryDirty || l == Dirty || l == Clean
    ensures BlockOk(bk, GcBlock, sector, cleanmarker) && bk.refs != []
  {
    hide RefsOk;
  }

  lemma GcFacts(bk: Block, sector: nat, cleanmarker: nat)
    requires BlockOk(bk, GcBlock, sector, cleanmarker)
    ensures bk.refs != []
  {
  }

  lemma PlacedOnce(lists: Lists, next: Option<nat>, gc: Option<nat>, place: seq<Place>, b: nat)
    requires Partition(lists, next, gc, place) && b < |place|
    ensures next == Some(b) || gc == Some(b) || (exists l: ListId :: l in lists && b in lists[l])
    ensures forall l: ListId, k: ListId :: l in lists && k in lists && b in lists[l] && b in lists[k] ==> l == k
    ensures forall l: ListId, i, j :: l in lists && 0 <= i < j < |lists[l]| ==> lists[l][i] != lists[l][j]
    ensures forall l: ListId :: l in lists && b in lists[l] ==> next != Some(b) && gc != Some(b)
    ensures next == Some(b) ==> gc != Some(b)
  {
    forall l: ListId, i, j | l in lists && 0 <= i < j < |lists[l]|
      ensures lists[l][i] != lists[l][j]
    {
      assert NoDup(lists[l]);
    }
    hide NoDup;
    forall l: ListId | l in lists && b in lists[l]
      ensures place[b] == On(l)
    {
      assert Agrees(b in lists[l], place, b, On(l));
    }
    assert Agrees(next == Some(b), place, b, NextBlock) && Agrees(gc == Some(b), place, b, GcBlock);
    if place[b].On? {
      assert Agrees(b in lists[place[b].list], place, b, place[b]);
    }
  }

  /** Done, to be tried again or looked at later, to be erased again, or given up. */
  datatype EraseResult = Done | Retry | Again | Failed

  datatype Op =
    | Reserve(minsize: nat)
    | Write(state: RefState, hasIno: bool, len: nat)
    | Obsolesce(b: nat, i: nat, wbufDirty: bool, soon: bool)
    | Check(b: nat, i: nat)
    | Collect(n: nat, padding: nat, next: seq<bool>)
    | WriteObsolete(at: nat, size: nat)
    | Collected
    | Flush(waste: nat, later: seq<bool>)
    | BeginErase
    | EndErase(block: nat, result: EraseResult)
    | CheckErased(verdict: EraseResult)

  datatype Outcome = Ok | NoSpace | EraseFirst | FlushFirst

  lemma FreeFacts(bk: Block, sector: nat, cleanmarker: nat)
    requires BlockOk(bk, On(Free), sector, cleanmarker)
    ensures bk == FreshBlock(sector, cleanmarker)
  {
  }

  lemma SpentMoves(bk: Block, p: Place, p': Place, sector: nat, cleanmarker: nat)
    requires BlockOk(bk, p, sector, cleanmarker) && Spent(p) && (p' == On(ErasePending) || (Spent(p') && bk.refs != []))
    ensures BlockOk(bk, p', sector, cleanmarker)
  {
  }

  lemma GoneOk(p: Place, sector: nat, cleanmarker: nat)
    requires Gone(p)
    ensures BlockOk(Block(ZERO, []), p, sector, cleanmarker)
  {
  }

  lemma GoneFacts(bk: Block, p: Place, sector: nat, cleanmarker: nat)
    requires Gone(p) && BlockOk(bk, p, sector, cleanmarker)
    ensures bk == Block(ZERO, [])
  {
  }

  lemma SpentFacts(bk: Block, p: Place, sector: nat, cleanmarker: nat)
    requires Spent(p) && BlockOk(bk, p, sector, cleanmarker)
    ensures bk.sizes.used == 0 && bk.sizes.unchecked == 0 && bk.sizes.Total() == sector
  {
  }

  lemma AllDirtyOk(sector: nat, cleanmarker: nat)
    ensures BlockOk(Block(ZERO.(dirty := sector), []), On(ErasePending), sector, cleanmarker)
  {
  }

  lemma FreshOk(sector: nat, cleanmarker: nat)
    requires cleanmarker <= sector
    ensures BlockOk(FreshBlock(sector, cleanmarker), On(Free), sector, cleanmarker)
    ensures BlockOk(FreshBlock(sector, cleanmarker), NextBlock, sector, cleanmarker)
    ensures FreshBlock(sector, cleanmarker).sizes == Sizes(0, cleanmarker, 0, 0, sector - cleanmarker)
    ensures cleanmarker == 0 ==> FreshBlock(sector, cleanmarker) == Block(ZERO.(free := sector), [])
    ensures cleanmarker > 0 ==>
              FreshBlock(sector, cleanmarker)
                == LinkRef(Block(ZERO.(free := sector), []), sector, Normal, false, cleanmarker)
  {
    hide Tiled, SumLen;
    var empty := Block(ZERO.(free := sector), []);
    EmptyRefsOk(empty, sector);
    if cleanmarker > 0 {
      LinkRefOk(empty, sector, Normal, false, cleanmarker);
      assert [] + [Ref(0, Normal, false)] == [Ref(0, Normal, false)];
    }
  }

  lemma EmptyRefsOk(bk: Block, sector: nat)
    requires bk.refs == [] && bk.sizes.used == 0 && bk.sizes.unchecked == 0 && bk.sizes.free <= sector
    ensures RefsOk(bk, sector)
  {
  }

  function AllDirty(bk: Block): Block {
    bk.(sizes := bk.sizes.(dirty := bk.sizes.dirty + bk.sizes.wasted, wasted := 0))
  }

  function Wasted(bk: Block, sector: nat, waste: nat): Block
    requires waste <= bk.sizes.free <= sector
  {
    var linked := LinkRef(bk, sector, Obsolete, false, waste);
    linked.(sizes := linked.sizes.(dirty := bk.sizes.dirty, wasted := bk.sizes.wasted + waste))
  }

  /** A block with enough written-off space counts all of it as dirty. */
  function Written(bk: Block): Block {
    if IsDirty(bk.sizes.wasted + bk.sizes.dirty) then AllDirty(bk) else bk
  }

  function FiledOn(bk: Block, sector: nat): ListId {
    if IsDirty(bk.sizes.wasted + bk.sizes.dirty)
    then if bk.sizes.dirty >= sector / 2 then VeryDirty else Dirty
    else Clean
  }
}
