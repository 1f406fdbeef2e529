/**
 The fragment tree of an inode: jffs2/nodelist.c (add, look up, truncate, obsolete) and the
 reader in jffs2/read.c.

 The red-black tree is kept as the ordered sequence of its fragments.  Fragments tile the file
 from offset 0; a fragment without a node is a hole.  The specification is the byte map
 `Owner`: which node supplies byte x.
 */
module FragTree {
  type byte = bv8
  type NodeId = nat

  datatype Option<T> = None | Some(value: T)

  /** A data node (struct jffs2_full_dnode) with the bytes jffs2_read_dnode yields for it. */
  datatype Node = Node(ofs: nat, data: seq<byte>) {
    function Size(): nat { |data| }
    function End(): nat { ofs + |data| }
  }

  datatype Frag = Frag(ofs: nat, size: nat, node: Option<NodeId>) {
    function End(): nat { ofs + size }
  }

  // ----- Tilings -----

  /** The fragments cover [lo, hi) in order, without gap, overlap or empty fragment. */
  ghost predicate Tiles(f: seq<Frag>, lo: nat, hi: nat) {
    if f == [] then lo == hi
    else f[0].ofs == lo && f[0].size > 0 && Tiles(f[1..], f[0].End(), hi)
  }

  /** The node that supplies byte `x`; None in a hole and past the end. */
  ghost function Owner(f: seq<Frag>, x: int): Option<NodeId> {
    if f == [] then None
    else if f[0].ofs <= x < f[0].End() then f[0].node
    else Owner(f[1..], x)
  }

  /** How many fragments refer to a node. */
  function Count(f: seq<Frag>, id: NodeId): nat {
    if f == [] then 0 else (if f[0].node == Some(id) then 1 else 0) + Count(f[1..], id)
  }

  function EndOf(f: seq<Frag>): nat {
    if f == [] then 0 else f[|f| - 1].End()
  }

  lemma {:induction false} TilesOrder(f: seq<Frag>, lo: nat, hi: nat)
    requires Tiles(f, lo, hi)
    ensures lo <= hi && (f != [] ==> lo < hi && f[|f| - 1].End() == hi)
    ensures forall i :: 0 <= i < |f| ==> lo <= f[i].ofs < f[i].End() <= hi
    ensures forall i, j :: 0 <= i < j < |f| ==> f[i].End() <= f[j].ofs
    ensures forall i, j :: 0 <= i < |f| && j == i + 1 && j < |f| ==> f[i].End() == f[j].ofs
  {
    if f != [] {
      TilesOrder(f[1..], f[0].End(), hi);
      assert forall i :: 0 < i < |f| ==> f[i] == f[1..][i - 1];
    }
  }

  lemma {:induction false} TilesSplit(f: seq<Frag>, lo: nat, hi: nat, i: nat)
    requires Tiles(f, lo, hi) && i <= |f|
    ensures var m := if i < |f| then f[i].ofs else hi;
            Tiles(f[..i], lo, m) && Tiles(f[i..], m, hi)
  {
    if i > 0 {
      TilesSplit(f[1..], f[0].End(), hi, i - 1);
      assert f[..i] == [f[0]] + f[1..][..i - 1] && f[i..] == f[1..][i - 1..];
    } else {
      assert f[i..] == f;
    }
  }

  lemma {:induction false} TilesConcat(f: seq<Frag>, g: seq<Frag>, lo: nat, m: nat, hi: nat)
    requires Tiles(f, lo, m) && Tiles(g, m, hi)
    ensures Tiles(f + g, lo, hi)
  {
    if f == [] {
      assert f + g == g;
    } else {
      TilesConcat(f[1..], g, f[0].End(), m, hi);
      assert (f + g)[1..] == f[1..] + g;
    }
  }

  lemma {:induction false} OwnerOutside(f: seq<Frag>, lo: nat, hi: nat, x: int)
    requires Tiles(f, lo, hi) && !(lo <= x < hi)
    ensures Owner(f, x) == None
  {
    if f != [] {
      TilesOrder(f, lo, hi);
      OwnerOutside(f[1..], f[0].End(), hi, x);
    }
  }

  lemma {:induction false} TilesBound(f: seq<Frag>, lo: nat, hi: nat)
    requires Tiles(f, lo, hi)
    ensures lo <= hi
  {
    if f != [] {
      TilesBound(f[1..], f[0].End(), hi);
    }
  }

  /** Where a tiling that was cut ends. */
  lemma BeforeEnd(f: seq<Frag>, size: nat)
    requires Tiles(f, 0, EndOf(f)) && Tiles(Before(f, size), 0, Min(EndOf(f), size))
    ensures EndOf(Before(f, size)) == Min(EndOf(f), size)
  {
    hide Before;
    TilesOrder(Before(f, size), 0, Min(EndOf(f), size));
  }

  lemma LastEnds(f: seq<Frag>)
    requires Tiles(f, 0, EndOf(f)) && f != []
    ensures f[|f| - 1].End() == EndOf(f) && f[|f| - 1].ofs < EndOf(f)
  {
    TilesOrder(f, 0, EndOf(f));
  }

  lemma {:induction false} OwnerConcat(f: seq<Frag>, g: seq<Frag>, lo: nat, m: nat, hi: nat, x: int)
    requires Tiles(f, lo, m) && Tiles(g, m, hi)
    ensures Owner(f + g, x) == if x < m then Owner(f, x) else Owner(g, x)
  {
    if f == [] {
      assert f + g == g;
      if x < m {
        OwnerOutside(g, m, hi, x);
      }
    } else {
      TilesBound(f[1..], f[0].End(), m);
      OwnerConcat(f[1..], g, f[0].End(), m, hi, x);
      assert (f + g)[1..] == f[1..] + g;
    }
  }

  lemma {:induction false} OwnerAt(f: seq<Frag>, lo: nat, hi: nat, i: nat, x: int)
    requires Tiles(f, lo, hi) && i < |f| && f[i].ofs <= x < f[i].End()
    ensures Owner(f, x) == f[i].node
  {
    if i > 0 {
      TilesOrder(f, lo, hi);
      OwnerAt(f[1..], f[0].End(), hi, i - 1, x);
    }
  }

  lemma {:induction false} CountConcat(f: seq<Frag>, g: seq<Frag>, id: NodeId)
    ensures Count(f + g, id) == Count(f, id) + Count(g, id)
  {
    if f == [] {
      assert f + g == g;
    } else {
      CountConcat(f[1..], g, id);
      assert (f + g)[1..] == f[1..] + g;
    }
  }

  lemma {:induction false} CountZero(f: seq<Frag>, id: NodeId)
    ensures Count(f, id) == 0 <==> forall i :: 0 <= i < |f| ==> f[i].node != Some(id)
  {
    if f != [] {
      CountZero(f[1..], id);
      assert forall i :: 0 < i < |f| ==> f[i] == f[1..][i - 1];
    }
  }

  // ----- Cutting -----

  /** What is left of the fragments in front of `x`. */
  function Before(f: seq<Frag>, x: nat): seq<Frag> {
    if f == [] || f[0].ofs >= x then []
    else if f[0].End() <= x then [f[0]] + Before(f[1..], x)
    else [f[0].(size := x - f[0].ofs)]
  }

  /** What is left of the fragments from `x` on. */
  function Since(f: seq<Frag>, x: nat): seq<Frag> {
    if f == [] then []
    else if f[0].End() <= x then Since(f[1..], x)
    else if f[0].ofs < x then [Frag(x, f[0].End() - x, f[0].node)] + f[1..]
    else f
  }

  function Min(a: nat, b: nat): nat { if a < b then a else b }

  function Max(a: nat, b: nat): nat { if a > b then a else b }

  lemma {:induction false} BeforeTiles(f: seq<Frag>, lo: nat, hi: nat, x: nat)
    requires Tiles(f, lo, hi) && lo <= x
    ensures Tiles(Before(f, x), lo, Min(hi, x))
    ensures forall y :: y < x ==> Owner(Before(f, x), y) == Owner(f, y)
    ensures forall y :: y >= x ==> Owner(Before(f, x), y) == None
  {
    TilesOrder(f, lo, hi);
    if f == [] {
    } else if f[0].ofs >= x {
      forall y | y < x ensures Owner(f, y) == None {
        OwnerOutside(f, lo, hi, y);
      }
    } else if f[0].End() <= x {
      BeforeTiles(f[1..], f[0].End(), hi, x);
      assert Before(f, x)[1..] == Before(f[1..], x);
    } else {
      assert Before(f, x)[1..] == [];
      forall y | y < lo ensures Owner(f, y) == None {
        OwnerOutside(f, lo, hi, y);
      }
    }
  }

  lemma {:induction false} SinceTiles(f: seq<Frag>, lo: nat, hi: nat, x: nat)
    requires Tiles(f, lo, hi) && lo <= x
    ensures x <= hi ==> Tiles(Since(f, x), x, hi)
    ensures x > hi ==> Since(f, x) == []
    ensures forall y :: y >= x ==> Owner(Since(f, x), y) == Owner(f, y)
  {
    TilesOrder(f, lo, hi);
    if f != [] {
      if f[0].End() <= x {
        SinceTiles(f[1..], f[0].End(), hi, x);
      } else if f[0].ofs < x {
        assert Since(f, x)[1..] == f[1..];
      }
    }
  }

  /** Cutting at the fragment that contains `x`. */
  lemma {:induction false} CutAt(f: seq<Frag>, lo: nat, hi: nat, i: nat, x: nat)
    requires Tiles(f, lo, hi) && i < |f| && f[i].ofs <= x < f[i].End()
    ensures Before(f, x) == f[..i] + (if f[i].ofs < x then [f[i].(size := x - f[i].ofs)] else [])
    ensures Since(f, x) == (if f[i].ofs < x then [Frag(x, f[i].End() - x, f[i].node)] else [f[i]]) + f[i + 1..]
  {
    TilesOrder(f, lo, hi);
    if i > 0 {
      CutAt(f[1..], f[0].End(), hi, i - 1, x);
      assert f[..i] == [f[0]] + f[1..][..i - 1] && f[i + 1..] == f[1..][i..];
    } else {
      assert f == [f[0]] + f[1..];
    }
  }

  /** Cutting at or past the end. */
  lemma {:induction false} CutPast(f: seq<Frag>, lo: nat, hi: nat, x: nat)
    requires Tiles(f, lo, hi) && x >= hi
    ensures Before(f, x) == f && Since(f, x) == []
  {
    TilesOrder(f, lo, hi);
    if f != [] {
      CutPast(f[1..], f[0].End(), hi, x);
    }
  }

  // ----- Overwriting -----

  /** The fragments in front of `x`, reaching up to `x` by a hole when the file is shorter. */
  function Padded(f: seq<Frag>, x: nat): seq<Frag> {
    var b := Before(f, x);
    if EndOf(f) < x then b + [Frag(EndOf(f), x - EndOf(f), None)] else b
  }

  /** The tree after node `id` has overwritten [ofs, ofs + size). */
  function Overwritten(f: seq<Frag>, id: NodeId, ofs: nat, size: nat): seq<Frag> {
    Padded(f, ofs) + [Frag(ofs, size, Some(id))] + Since(f, ofs + size)
  }

  lemma PaddedTiles(f: seq<Frag>, x: nat)
    requires Tiles(f, 0, EndOf(f))
    ensures Tiles(Padded(f, x), 0, x)
    ensures forall y :: y < x ==> Owner(Padded(f, x), y) == Owner(f, y)
  {
    var e := EndOf(f);
    BeforeTiles(f, 0, e, x);
    if e < x {
      var hole := [Frag(e, x - e, None)];
      assert Tiles(hole, e, x);
      TilesConcat(Before(f, x), hole, 0, e, x);
      forall y | y < x
        ensures Owner(Padded(f, x), y) == Owner(f, y)
      {
        OwnerConcat(Before(f, x), hole, 0, e, x, y);
        if y >= e {
          OwnerOutside(f, 0, e, y);
        }
      }
    }
  }

  /** The new tree tiles again and differs from the old one exactly on the new node's bytes. */
  lemma OverwrittenMap(f: seq<Frag>, id: NodeId, ofs: nat, size: nat)
    requires Tiles(f, 0, EndOf(f)) && size > 0
    ensures var g := Overwritten(f, id, ofs, size);
            && EndOf(g) == Max(EndOf(f), ofs + size) && Tiles(g, 0, EndOf(g))
            && forall x: int :: Owner(g, x) == if ofs <= x < ofs + size then Some(id) else Owner(f, x)
  {
    var e, end := EndOf(f), ofs + size;
    var a, b, c := Padded(f, ofs), [Frag(ofs, size, Some(id))], Since(f, end);
    var hi := Max(e, end);
    PaddedTiles(f, ofs);
    SinceTiles(f, 0, e, end);
    assert Tiles(b, ofs, end);
    assert Tiles(c, end, hi);
    TilesConcat(a, b, 0, ofs, end);
    TilesConcat(a + b, c, 0, end, hi);
    TilesOrder(a + b + c, 0, hi);
    forall x: int
      ensures Owner(a + b + c, x) == if ofs <= x < end then Some(id) else Owner(f, x)
    {
      OwnerConcat(a, b, 0, ofs, end, x);
      OwnerConcat(a + b, c, 0, end, hi, x);
    }
  }

  lemma {:induction false} SinceSkip(f: seq<Frag>, lo: nat, hi: nat, i: nat, x: nat)
    requires Tiles(f, lo, hi) && i < |f| && f[i].End() <= x
    ensures Since(f, x) == Since(f[i + 1..], x)
  {
    TilesOrder(f, lo, hi);
    if i > 0 {
      SinceSkip(f[1..], f[0].End(), hi, i - 1, x);
      assert f[1..][i..] == f[i + 1..];
    }
  }

  lemma CountParts(f: seq<Frag>, a: seq<Frag>, b: seq<Frag>, c: seq<Frag>, id: NodeId)
    requires f == a + b + c
    ensures Count(f, id) == Count(a, id) + Count(b, id) + Count(c, id)
  {
    CountConcat(a + b, c, id);
    CountConcat(a, b, id);
  }

  /** Exchanging a stretch of the tree changes each count by what the two stretches hold. */
  lemma CountExchange(f: seq<Frag>, i: nat, j: nat, mid: seq<Frag>, id: NodeId)
    requires i <= j <= |f|
    ensures Count(f[..i] + mid + f[j..], id) == Count(f, id) - Count(f[i..j], id) + Count(mid, id)
  {
    CountParts(f, f[..i], f[i..j], f[j..], id);
    CountParts(f[..i] + mid + f[j..], f[..i], mid, f[j..], id);
  }

  // ----- The inode's tree -----

  /** A node's `frags` field counts the fragments that refer to it, `extra` of them not yet linked. */
  ghost predicate Counted(f: seq<Frag>, frags: map<NodeId, nat>, extra: Option<NodeId>) {
    forall id :: id in frags ==> frags[id] == Count(f, id) + (if extra == Some(id) then 1 else 0)
  }

  /** Every fragment that has a node lies inside that node's range. */
  ghost predicate Backed(f: seq<Frag>, nodes: map<NodeId, Node>) {
    forall i :: 0 <= i < |f| && f[i].node.Some? ==> InNode(f[i], nodes)
  }

  ghost predicate InNode(fr: Frag, nodes: map<NodeId, Node>)
    requires fr.node.Some?
  {
    fr.node.value in nodes && nodes[fr.node.value].ofs <= fr.ofs && fr.End() <= nodes[fr.node.value].End()
  }

  class Inode {
    var fragtree: seq<Frag>
    var nodes: map<NodeId, Node>
    var frags: map<NodeId, nat> // node->frags
    var obsolete: set<NodeId> // nodes given to jffs2_mark_node_obsolete

    constructor ()
      ensures Valid() && fragtree == [] && nodes == map[] && obsolete == {}
    {
      fragtree, nodes, frags, obsolete := [], map[], map[], {};
    }

    /** In particular a node is obsolete exactly when no fragment refers to it. */
    ghost predicate Valid()
      reads this
    {
      Tiles(fragtree, 0, EndOf(fragtree)) && Backed(fragtree, nodes) && frags.Keys == nodes.Keys && Booked(None)
    }

    /** Byte `x` of the file as the tree describes it. */
    ghost function ByteAt(x: int): byte
      requires Valid()
      reads this
    {
      ContentAt(fragtree, nodes, x)
    }

    /** Descends a search tree of any shape over the ordered fragments. */
    method Lookup(offset: nat) returns (i: int)
      requires Tiles(fragtree, 0, EndOf(fragtree))
      ensures fragtree == [] ==> i == -1
      ensures fragtree != [] ==> 0 <= i < |fragtree| && fragtree[i].ofs <= offset
      ensures fragtree != [] && offset < EndOf(fragtree) ==> offset < fragtree[i].End()
      ensures fragtree != [] && offset >= EndOf(fragtree) ==> i == |fragtree| - 1
    {
      TilesOrder(fragtree, 0, EndOf(fragtree));
      var lo, hi, prev := 0, |fragtree|, -1;
      while lo < hi
        invariant 0 <= lo <= hi <= |fragtree| && prev == lo - 1
        invariant lo > 0 ==> fragtree[lo - 1].End() <= offset
        invariant hi < |fragtree| ==> offset < fragtree[hi].ofs
      {
        var mid :| lo <= mid < hi;
        if fragtree[mid].End() <= offset {
          prev, lo := mid, mid + 1;
        } else if fragtree[mid].ofs > offset {
          hi := mid;
        } else {
          return mid;
        }
      }
      return prev;
    }

    /** Drops one reference; the last one makes the node obsolete. */
    method ObsoleteFrag(fr: Frag)
      requires fr.node.Some? ==> fr.node.value in frags && frags[fr.node.value] > 0
      modifies `frags, `obsolete
      ensures frags == Dropped(old(frags), fr.node)
      ensures forall id :: id in obsolete <==> id in old(obsolete) || (fr.node == Some(id) && frags[id] == 0)
    {
      if fr.node.Some? {
        var id := fr.node.value;
        frags := frags[id := frags[id] - 1];
        if frags[id] == 0 {
          obsolete := obsolete + {id};
        }
      }
    }

    /** Books are right for the current tree: counts, and obsolete nodes are those counted zero. */
    ghost predicate Booked(extra: Option<NodeId>)
      reads this
    {
      Counted(fragtree, frags, extra) && forall id :: id in obsolete <==> id in frags && frags[id] == 0
    }

    /** Adds a node whose bytes now supersede whatever the tree held there. */
    method AddFullDnode(id: NodeId, node: Node)
      requires Valid() && id !in nodes
      modifies this
      ensures Valid()
      ensures node.Size() == 0 ==> fragtree == old(fragtree) && nodes == old(nodes) && obsolete == old(obsolete)
      ensures node.Size() > 0 ==> nodes == old(nodes)[id := node]
      ensures node.Size() > 0 ==> fragtree == Overwritten(old(fragtree), id, node.ofs, node.Size())
      ensures forall x: int :: Owner(fragtree, x) == if node.ofs <= x < node.End() then Some(id)
              else Owner(old(fragtree), x)
    {
      if node.Size() == 0 {
        return;
      }
      FreshUncounted(fragtree, nodes, id);
      nodes, frags := nodes[id := node], frags[id := 1];
      OverwrittenMap(fragtree, id, node.ofs, node.Size());
      OverwrittenBacked(fragtree, nodes, id);
      AddFrag(Frag(node.ofs, node.Size(), Some(id)), id);
    }

    method AddFrag(newfrag: Frag, id: NodeId)
      requires Tiles(fragtree, 0, EndOf(fragtree)) && Backed(fragtree, nodes) && frags.Keys == nodes.Keys
      requires Booked(Some(id)) && newfrag.node == Some(id) && id in frags && newfrag.size > 0
      modifies `fragtree, `frags, `obsolete
      ensures fragtree == Overwritten(old(fragtree), id, newfrag.ofs, newfrag.size)
      ensures Booked(None) && frags.Keys == old(frags.Keys)
    {
      hide Tiles, Overwritten, Count, Counted, Backed, Before, Since;
      var i := Lookup(newfrag.ofs);
      var lastend := if i >= 0 then fragtree[i].End() else 0;
      TilesOrder(fragtree, 0, EndOf(fragtree));
      if lastend <= newfrag.ofs {
        NoOverlappingNode(newfrag, id, lastend);
      } else if newfrag.ofs > fragtree[i].ofs {
        if fragtree[i].End() > newfrag.End() {
          SplitFrag(newfrag, id, i);
        } else {
          ghost var f := fragtree;
          ShrinkFrag(newfrag, id, i);
          SweepCovered(newfrag, id, i + 1, f, i);
        }
      } else if newfrag.End() >= fragtree[i].End() {
        ghost var f := fragtree;
        ReplaceFrag(newfrag, id, i);
        SweepCovered(newfrag, id, i, f, i);
      } else {
        AdvanceFrag(newfrag, id, i);
      }
    }

    method NoOverlappingNode(newfrag: Frag, id: NodeId, lastend: nat)
      requires Tiles(fragtree, 0, EndOf(fragtree)) && Booked(Some(id)) && newfrag.node == Some(id)
      requires lastend == EndOf(fragtree) <= newfrag.ofs
      modifies `fragtree
      ensures fragtree == Overwritten(old(fragtree), id, newfrag.ofs, newfrag.size)
      ensures Booked(None)
    {
      ghost var f := fragtree;
      CutPast(f, 0, lastend, newfrag.ofs);
      CutPast(f, 0, lastend, newfrag.End());
      if lastend < newfrag.ofs {
        var hole := Frag(lastend, newfrag.ofs - lastend, None);
        CountedExchange(f, frags, frags, Some(id), None, |f|, |f|, [hole, newfrag]);
        fragtree := fragtree + [hole] + [newfrag];
        assert fragtree == f[..|f|] + [hole, newfrag] + f[|f|..];
      } else {
        CountedExchange(f, frags, frags, Some(id), None, |f|, |f|, [newfrag]);
        fragtree := fragtree + [newfrag];
        assert fragtree == f[..|f|] + [newfrag] + f[|f|..];
      }
    }

    /** The new fragment lies strictly inside an old one, which survives on both sides. */
    method SplitFrag(newfrag: Frag, id: NodeId, i: nat)
      requires Tiles(fragtree, 0, EndOf(fragtree)) && Backed(fragtree, nodes) && frags.Keys == nodes.Keys
      requires Booked(Some(id)) && newfrag.node == Some(id)
      requires i < |fragtree| && fragtree[i].ofs < newfrag.ofs <= newfrag.End() < fragtree[i].End()
      modifies `fragtree, `frags
      ensures fragtree == Overwritten(old(fragtree), id, newfrag.ofs, newfrag.size)
      ensures Booked(None) && frags.Keys == old(frags.Keys)
    {
      hide Count, Counted, Tiles, Before, Since, Backed;
      ghost var f, m := fragtree, frags;
      var this_ := fragtree[i];
      CutAt(f, 0, EndOf(f), i, newfrag.ofs);
      CutAt(f, 0, EndOf(f), i, newfrag.End());
      TilesOrder(f, 0, EndOf(f));
      var newfrag2 := Frag(newfrag.End(), this_.End() - newfrag.End(), this_.node);
      var cut := this_.(size := newfrag.ofs - this_.ofs);
      if this_.node.Some? {
        NodeCounted(f, nodes, m, id, i);
        frags := frags[this_.node.value := frags[this_.node.value] + 1];
      }
      CountedExchange(f, m, frags, Some(id), None, i, i + 1, [cut, newfrag, newfrag2]);
      fragtree := fragtree[..i] + [cut, newfrag, newfrag2] + fragtree[i + 1..];
      assert f[..i] + [cut] + [newfrag] + ([newfrag2] + f[i + 1..]) == fragtree;
    }

    /** The new fragment takes the tail of an old one. */
    method ShrinkFrag(newfrag: Frag, id: NodeId, i: nat)
      requires Tiles(fragtree, 0, EndOf(fragtree)) && Booked(Some(id)) && newfrag.node == Some(id)
      requires i < |fragtree| && fragtree[i].ofs < newfrag.ofs < fragtree[i].End()
      modifies `fragtree
      ensures fragtree == Padded(old(fragtree), newfrag.ofs) + [newfrag] + old(fragtree)[i + 1..]
      ensures |Padded(old(fragtree), newfrag.ofs)| == i + 1 && Booked(None)
    {
      ghost var f := fragtree;
      CutAt(f, 0, EndOf(f), i, newfrag.ofs);
      TilesOrder(f, 0, EndOf(f));
      var cut := fragtree[i].(size := newfrag.ofs - fragtree[i].ofs);
      CountedExchange(f, frags, frags, Some(id), None, i, i + 1, [cut, newfrag]);
      fragtree := fragtree[..i] + [cut, newfrag] + fragtree[i + 1..];
      assert f[..i] + [cut] + [newfrag] + f[i + 1..] == fragtree;
    }

    /** The new fragment starts with an old one and covers it. */
    method ReplaceFrag(newfrag: Frag, id: NodeId, i: nat)
      requires Tiles(fragtree, 0, EndOf(fragtree)) && Backed(fragtree, nodes) && frags.Keys == nodes.Keys
      requires Booked(Some(id)) && newfrag.node == Some(id)
      requires i < |fragtree| && fragtree[i].ofs == newfrag.ofs
      modifies `fragtree, `frags, `obsolete
      ensures fragtree == Padded(old(fragtree), newfrag.ofs) + [newfrag] + old(fragtree)[i + 1..]
      ensures |Padded(old(fragtree), newfrag.ofs)| == i && Booked(None) && frags.Keys == old(frags.Keys)
    {
      hide Count, Counted, Tiles, Before, Since, Backed;
      ghost var f, m := fragtree, frags;
      var this_ := fragtree[i];
      TilesOrder(f, 0, EndOf(f));
      CutAt(f, 0, EndOf(f), i, newfrag.ofs);
      fragtree := fragtree[i := newfrag];
      NodeCounted(f, nodes, m, id, i);
      ObsoleteFrag(this_);
      CountedExchange(f, m, frags, Some(id), None, i, i + 1, [newfrag]);
      assert f[..i] + [newfrag] + f[i + 1..] == fragtree;
    }

    /** The new fragment takes the head of an old one. */
    method AdvanceFrag(newfrag: Frag, id: NodeId, i: nat)
      requires Tiles(fragtree, 0, EndOf(fragtree)) && Booked(Some(id)) && newfrag.node == Some(id)
      requires i < |fragtree| && fragtree[i].ofs == newfrag.ofs <= newfrag.End() < fragtree[i].End() && newfrag.size > 0
      modifies `fragtree
      ensures fragtree == Overwritten(old(fragtree), id, newfrag.ofs, newfrag.size)
      ensures Booked(None)
    {
      hide Count, Counted, Tiles, Before, Since, Backed;
      ghost var f := fragtree;
      var this_ := fragtree[i];
      TilesOrder(f, 0, EndOf(f));
      CutAt(f, 0, EndOf(f), i, newfrag.ofs);
      CutAt(f, 0, EndOf(f), i, newfrag.End());
      var rest := Frag(this_.ofs + newfrag.size, this_.size - newfrag.size, this_.node);
      CountedExchange(f, frags, frags, Some(id), None, i, i + 1, [newfrag, rest]);
      fragtree := fragtree[..i] + [newfrag, rest] + fragtree[i + 1..];
      assert f[..i] + [newfrag] + ([rest] + f[i + 1..]) == fragtree;
    }

    method EraseAt(q: nat)
      requires q < |fragtree| && Booked(None)
      requires fragtree[q].node.Some? ==> fragtree[q].node.value in frags
      modifies `fragtree, `frags, `obsolete
      ensures fragtree == old(fragtree)[..q] + old(fragtree)[q + 1..]
      ensures Booked(None) && frags.Keys == old(frags.Keys)
    {
      hide Count, Counted;
      ghost var g, m := fragtree, frags;
      var this_ := fragtree[q];
      FragCounted(g, m, q);
      fragtree := fragtree[..q] + fragtree[q + 1..];
      ObsoleteFrag(this_);
      CountedExchange(g, m, frags, None, None, q, q + 1, []);
      assert g[..q] + [] + g[q + 1..] == fragtree;
    }

    method ResizeAt(q: nat, ofs: nat, size: nat)
      requires q < |fragtree| && Booked(None)
      modifies `fragtree
      ensures fragtree == old(fragtree)[q := Frag(ofs, size, old(fragtree)[q].node)]
      ensures Booked(None)
    {
      hide Count, Counted;
      ghost var g := fragtree;
      var resized := Frag(ofs, size, fragtree[q].node);
      CountedExchange(g, frags, frags, None, None, q, q + 1, [resized]);
      fragtree := fragtree[q := resized];
      assert g[..q] + [resized] + g[q + 1..] == fragtree;
    }

    /** Erases the fragments behind the new one that it covers, and trims the one it covers partly. */
    method SweepCovered(newfrag: Frag, id: NodeId, p: nat, ghost f: seq<Frag>, ghost k: nat)
      requires Tiles(f, 0, EndOf(f)) && k < |f| && f[k].End() <= newfrag.End() && Backed(f, nodes)
      requires fragtree == Padded(f, newfrag.ofs) + [newfrag] + f[k + 1..] && |Padded(f, newfrag.ofs)| == p
      requires Booked(None) && newfrag.node == Some(id) && frags.Keys == nodes.Keys
      modifies `fragtree, `frags, `obsolete
      ensures fragtree == Overwritten(f, id, newfrag.ofs, newfrag.size)
      ensures Booked(None) && frags.Keys == old(frags.Keys)
    {
      hide Booked, Tiles, Before, Backed, Padded, Since;
      ghost var left, end, j := Padded(f, newfrag.ofs) + [newfrag], newfrag.End(), k + 1;
      TilesOrder(f, 0, EndOf(f));
      SinceSkip(f, 0, EndOf(f), k, end);
      while p + 1 < |fragtree| && newfrag.End() >= fragtree[p + 1].End()
        invariant k < j <= |f| && f[j - 1].End() <= end && Since(f, end) == Since(f[j..], end)
        invariant fragtree == left + f[j..] && Booked(None) && frags.Keys == old(frags.Keys)
        decreases |fragtree|
      {
        if fragtree[p + 1].node.Some? {
          BackedAt(f, nodes, j);
        }
        DropHead(left, f, j, end);
        EraseAt(p + 1);
        j := j + 1;
      }
      if p + 1 < |fragtree| {
        TrimHead(left, f, j, end);
        if newfrag.End() != fragtree[p + 1].ofs {
          ResizeAt(p + 1, newfrag.End(), fragtree[p + 1].End() - newfrag.End());
        }
      } else {
        SinceNil(end);
      }
    }

    /** Cuts the file at `size` and returns the length that is really there. */
    method TruncateFragtree(size: nat) returns (r: nat)
      requires Valid()
      modifies `fragtree, `frags, `obsolete
      ensures Valid() && fragtree == Before(old(fragtree), size)
      ensures forall x: int :: Owner(fragtree, x) == if x < size then Owner(old(fragtree), x) else None
      ensures r == Min(size, EndOf(old(fragtree))) == EndOf(fragtree)
    {
      hide Booked, Tiles, Before, Since, Backed;
      ghost var f := fragtree;
      BeforeTiles(f, 0, EndOf(f), size);
      BeforeBacked(f, nodes, size);
      BeforeEnd(f, size);
      CutTail(size);
      if size == 0 {
        return 0;
      }
      if fragtree == [] {
        return 0;
      }
      var last := fragtree[|fragtree| - 1];
      if last.End() < size {
        return last.End();
      }
      return size;
    }

    method CutTail(size: nat)
      requires Tiles(fragtree, 0, EndOf(fragtree)) && Backed(fragtree, nodes) && Booked(None) &&
               frags.Keys == nodes.Keys
      modifies `fragtree, `frags, `obsolete
      ensures fragtree == Before(old(fragtree), size) && Booked(None) && frags.Keys == old(frags.Keys)
    {
      hide Booked, Tiles, Before, Since, Backed;
      ghost var f := fragtree;
      var i := Lookup(size);
      if i < 0 {
        CutPast(f, 0, EndOf(f), size);
        return;
      }
      if size < EndOf(fragtree) {
        CutAt(f, 0, EndOf(f), i, size);
      } else {
        CutPast(f, 0, EndOf(f), size);
        LastEnds(f);
      }
      if fragtree[i].ofs != size {
        if fragtree[i].End() > size {
          ResizeAt(i, fragtree[i].ofs, size - fragtree[i].ofs);
        }
        i := i + 1;
      }
      EraseTail(i, f);
    }

    /** Erases the fragments from index `i` on, all of which still stand as they did in `f`. */
    method EraseTail(i: nat, ghost f: seq<Frag>)
      requires i <= |fragtree| == |f| && fragtree[i..] == f[i..]
      requires Backed(f, nodes) && Booked(None) && frags.Keys == nodes.Keys
      modifies `fragtree, `frags, `obsolete
      ensures fragtree == old(fragtree)[..i] && Booked(None) && frags.Keys == old(frags.Keys)
    {
      hide Booked, Backed;
      ghost var left, j := fragtree[..i], i;
      while i < |fragtree|
        invariant i <= j <= |f| && fragtree == left + f[j..]
        invariant Booked(None) && frags.Keys == old(frags.Keys)
        decreases |fragtree|
      {
        if fragtree[i].node.Some? {
          BackedAt(f, nodes, j);
        }
        DropHead(left, f, j, f[j].End());
        EraseAt(i);
        j := j + 1;
      }
    }

    /** Reads `len` bytes from `offset`; bytes of holes and past the end are zero. */
    method ReadInodeRange(offset: nat, len: nat) returns (buf: seq<byte>)
      requires Valid()
      ensures |buf| == len && forall k :: 0 <= k < len ==> buf[k] == ByteAt(offset + k)
    {
      hide Tiles, Backed, Booked, Owner, ContentAt;
      TilesOrder(fragtree, 0, EndOf(fragtree));
      var end := offset + len;
      var i := Lookup(offset);
      var pos := offset;
      buf := [];
      while pos < end
        invariant pos == offset + |buf| <= end && -1 <= i <= |fragtree|
        invariant pos >= EndOf(fragtree) || pos == end
                  || (0 <= i < |fragtree| && fragtree[i].ofs <= pos < fragtree[i].End())
        invariant pos >= EndOf(fragtree) && 0 <= i < |fragtree| ==> fragtree[i].End() <= pos
        invariant forall k :: 0 <= k < |buf| ==> buf[k] == ByteAt(offset + k)
      {
        ghost var old_ := buf;
        if i < 0 || i == |fragtree| || fragtree[i].End() <= pos {
          ZeroPast(fragtree, nodes, pos, end);
          buf := buf + seq(end - pos, _ => 0);
          pos := end;
        } else if fragtree[i].node.None? {
          var holeend := Min(end, fragtree[i].End());
          ZeroHole(fragtree, nodes, i);
          buf := buf + seq(holeend - pos, _ => 0);
          pos := holeend;
          i := i + 1;
        } else {
          FragContent(fragtree, nodes, i);
          var node := nodes[fragtree[i].node.value];
          var readlen := Min(fragtree[i].End() - pos, end - pos);
          buf := buf + node.data[pos - node.ofs..pos - node.ofs + readlen];
          pos := pos + readlen;
          i := i + 1;
        }
      }
    }
  }

  lemma ZeroPast(f: seq<Frag>, nodes: map<NodeId, Node>, pos: nat, end: nat)
    requires Tiles(f, 0, EndOf(f)) && Backed(f, nodes) && EndOf(f) <= pos
    ensures forall x :: pos <= x < end ==> ContentAt(f, nodes, x) == 0
  {
    forall x | pos <= x < end ensures Owner(f, x) == None {
      OwnerOutside(f, 0, EndOf(f), x);
    }
  }

  lemma ZeroHole(f: seq<Frag>, nodes: map<NodeId, Node>, i: nat)
    requires Tiles(f, 0, EndOf(f)) && Backed(f, nodes) && i < |f| && f[i].node == None
    ensures forall x :: f[i].ofs <= x < f[i].End() ==> ContentAt(f, nodes, x) == 0
  {
    forall x | f[i].ofs <= x < f[i].End() ensures Owner(f, x) == None {
      OwnerAt(f, 0, EndOf(f), i, x);
    }
  }

  lemma FragContent(f: seq<Frag>, nodes: map<NodeId, Node>, i: nat)
    requires Tiles(f, 0, EndOf(f)) && Backed(f, nodes) && i < |f| && f[i].node.Some?
    ensures InNode(f[i], nodes)
    ensures var node := nodes[f[i].node.value];
            forall x :: f[i].ofs <= x < f[i].End() ==> ContentAt(f, nodes, x) == node.data[x - node.ofs]
  {
    forall x | f[i].ofs <= x < f[i].End() ensures Owner(f, x) == f[i].node {
      OwnerAt(f, 0, EndOf(f), i, x);
    }
  }

  lemma SinceNil(x: nat)
    ensures Since([], x) == []
  {
  }

  lemma DropHead(left: seq<Frag>, f: seq<Frag>, j: nat, end: nat)
    requires j < |f| && f[j].End() <= end
    ensures Since(f[j..], end) == Since(f[j + 1..], end)
    ensures var g := left + f[j..];
            g[|left|] == f[j] && g[..|left|] + g[|left| + 1..] == left + f[j + 1..]
  {
    var g := left + f[j..];
    assert f[j..][1..] == f[j + 1..];
    assert g[..|left|] == left && g[|left| + 1..] == f[j + 1..];
  }

  lemma TrimHead(left: seq<Frag>, f: seq<Frag>, j: nat, end: nat)
    requires j < |f| && f[j].ofs <= end < f[j].End()
    ensures var g := left + f[j..];
            && g[|left|] == f[j]
            && (f[j].ofs == end ==> Since(f[j..], end) == f[j..])
            && (f[j].ofs < end ==> g[|left| := Frag(end, f[j].End() - end, f[j].node)] == left + Since(f[j..], end))
  {
    assert f[j..][1..] == f[j + 1..];
  }

  function Dropped(frags: map<NodeId, nat>, node: Option<NodeId>): (r: map<NodeId, nat>)
    requires node.Some? ==> node.value in frags && frags[node.value] > 0
    ensures r.Keys == frags.Keys
  {
    if node.None? then frags else frags[node.value := frags[node.value] - 1]
  }

  lemma FreshUncounted(f: seq<Frag>, nodes: map<NodeId, Node>, id: NodeId)
    requires Backed(f, nodes) && id !in nodes
    ensures Count(f, id) == 0
  {
    CountZero(f, id);
  }

  lemma NodeCounted(f: seq<Frag>, nodes: map<NodeId, Node>, frags: map<NodeId, nat>, id: NodeId, i: nat)
    requires Backed(f, nodes) && frags.Keys == nodes.Keys && Counted(f, frags, Some(id)) && i < |f|
    ensures f[i].node.Some? ==> f[i].node.value in frags && frags[f[i].node.value] > 0
  {
    if f[i].node.Some? {
      assert InNode(f[i], nodes);
      CountZero(f, f[i].node.value);
    }
  }

  lemma BackedAt(f: seq<Frag>, nodes: map<NodeId, Node>, i: nat)
    requires Backed(f, nodes) && i < |f| && f[i].node.Some?
    ensures f[i].node.value in nodes
  {
    assert InNode(f[i], nodes);
  }

  lemma FragCounted(f: seq<Frag>, frags: map<NodeId, nat>, i: nat)
    requires Counted(f, frags, None) && i < |f| && (f[i].node.Some? ==> f[i].node.value in frags)
    ensures f[i].node.Some? ==> frags[f[i].node.value] > 0
  {
    if f[i].node.Some? {
      CountZero(f, f[i].node.value);
    }
  }

  function Ext(extra: Option<NodeId>, id: NodeId): nat {
    if extra == Some(id) then 1 else 0
  }

  /** Counts stay right when they change by the difference of the exchanged stretches. */
  lemma CountedExchange(f: seq<Frag>, frags: map<NodeId, nat>, frags': map<NodeId, nat>,
                        extra: Option<NodeId>, extra': Option<NodeId>, i: nat, j: nat, mid: seq<Frag>)
    requires Counted(f, frags, extra) && frags'.Keys == frags.Keys && i <= j <= |f| && |mid| <= 3 && j - i <= 1
    requires forall id :: id in frags ==>
               frags'[id] - Ext(extra', id) == frags[id] - Ext(extra, id) - Few(f[i..j], id) + Few(mid, id)
    ensures Counted(f[..i] + mid + f[j..], frags', extra')
  {
    forall id | id in frags
      ensures frags'[id] == Count(f[..i] + mid + f[j..], id) + Ext(extra', id)
    {
      CountExchange(f, i, j, mid, id);
      FewIsCount(f[i..j], id);
      FewIsCount(mid, id);
    }
  }

  /** Count, spelled out for a handful of fragments. */
  function Few(f: seq<Frag>, id: NodeId): nat
    requires |f| <= 3
  {
    (if |f| > 0 && f[0].node == Some(id) then 1 else 0) + (if |f| > 1 && f[1].node == Some(id) then 1 else 0)
    + (if |f| > 2 && f[2].node == Some(id) then 1 else 0)
  }

  lemma FewIsCount(f: seq<Frag>, id: NodeId)
    requires |f| <= 3
    ensures Few(f, id) == Count(f, id)
  {
    if |f| > 0 {
      assert |f| > 1 ==> f[1..][0] == f[1] && f[1..][1..] == f[2..];
      assert |f| > 2 ==> f[2..][0] == f[2] && f[2..][1..] == [];
    }
  }

  lemma {:induction false} BeforeBacked(f: seq<Frag>, nodes: map<NodeId, Node>, x: nat)
    requires Backed(f, nodes)
    ensures Backed(Before(f, x), nodes)
  {
    if f != [] && f[0].ofs < x && f[0].End() <= x {
      assert forall i :: 0 <= i < |f| - 1 ==> f[1..][i] == f[i + 1];
      BeforeBacked(f[1..], nodes, x);
    }
  }

  lemma {:induction false} SinceBacked(f: seq<Frag>, nodes: map<NodeId, Node>, x: nat)
    requires Backed(f, nodes)
    ensures Backed(Since(f, x), nodes)
  {
    if f != [] {
      assert forall i :: 0 <= i < |f| - 1 ==> f[1..][i] == f[i + 1];
      if f[0].End() <= x {
        SinceBacked(f[1..], nodes, x);
      }
    }
  }

  lemma OverwrittenBacked(f: seq<Frag>, nodes: map<NodeId, Node>, id: NodeId)
    requires Backed(f, nodes) && id in nodes
    ensures Backed(Overwritten(f, id, nodes[id].ofs, nodes[id].Size()), nodes)
  {
    BeforeBacked(f, nodes, nodes[id].ofs);
    SinceBacked(f, nodes, nodes[id].End());
  }

  ghost function ContentAt(f: seq<Frag>, nodes: map<NodeId, Node>, x: int): byte
    requires Tiles(f, 0, EndOf(f)) && Backed(f, nodes)
  {
    match Owner(f, x)
    case None => 0
    case Some(id) =>
      OwnerInNode(f, 0, EndOf(f), nodes, x);
      nodes[id].data[x - nodes[id].ofs]
  }

  lemma {:induction false} OwnerInNode(f: seq<Frag>, lo: nat, hi: nat, nodes: map<NodeId, Node>, x: int)
    requires Tiles(f, lo, hi) && Backed(f, nodes) && Owner(f, x).Some?
    ensures var id := Owner(f, x).value;
            id in nodes && nodes[id].ofs <= x < nodes[id].End()
  {
    if f[0].ofs <= x < f[0].End() {
      assert InNode(f[0], nodes);
    } else {
      assert forall i :: 0 <= i < |f| - 1 ==> f[1..][i] == f[i + 1];
      OwnerInNode(f[1..], f[0].End(), hi, nodes, x);
    }
  }
}
