/**
 Rebuilding a file from its log of data nodes: jffs2/readinode.c, jffs2_add_tn_to_tree and
 jffs2_build_inode_fragtree.

 Versioned nodes arrive in any order.  A temporary tree, kept here as the sequence of its
 entries in order, drops nodes that a newer good node covers and flags nodes that an earlier
 one may overlap.  Building replays the tree from its end, group by group.  The specification
 is that every byte comes from the newest CRC-valid node that covers it.
 */
module ReadInode {
  import F = FragTree

  /** A data node as read from flash; `crcOk` is what check_tn_node finds out about its data. */
  datatype Tn = Tn(version: nat, node: F.Node, crcOk: bool) {
    function Ofs(): nat { node.ofs }
    function Size(): nat { node.Size() }
    function End(): nat { node.End() }
    predicate Covers(x: int) { node.ofs <= x < node.End() }
    /** A node without data has nothing to check. */
    predicate Usable() { crcOk || node.Size() == 0 }
  }

  datatype Entry = Entry(tn: Tn, overlapped: bool)

  // ----- Specification -----

  /** `v` names the newest good node of `s` that covers byte `x`, if there is one. */
  ghost predicate Newest(s: set<Tn>, x: int, v: F.Option<F.NodeId>) {
    && (v.None? ==> forall n :: n in s && n.crcOk ==> !n.Covers(x))
    && (v.Some? ==> exists n :: n in s && n.version == v.value && IsNewest(s, x, n))
  }

  ghost predicate IsNewest(s: set<Tn>, x: int, n: Tn) {
    n.crcOk && n.Covers(x) && forall m :: m in s && m.crcOk && m.Covers(x) ==> m.version <= n.version
  }

  /**
   * `latest` is the usable node of the highest version.  There is none exactly if every usable node has version 0
   * and data: versions start above 0, and a first node of version 0 is passed over unless it has no data.
   */
  ghost predicate LatestOf(s: set<Tn>, latest: F.Option<Tn>) {
    match latest
    case None => forall n :: n in s && n.Usable() ==> n.version == 0 && n.Size() > 0
    case Some(l) =>
      l in s && l.Usable() && (l.version == 0 ==> l.Size() == 0) &&
      forall n :: n in s && n.Usable() ==> n.version <= l.version
  }

  /** `m` is good, no older than `n`, and covers all of it. */
  ghost predicate Supersedes(m: Tn, n: Tn) {
    m.crcOk && m.version >= n.version && m.Ofs() <= n.Ofs() && n.End() <= m.End()
  }

  /** Every good data node that arrived is still represented by one that covers it. */
  ghost predicate Kept(arrived: set<Tn>, s: set<Tn>) {
    forall n :: n in arrived && n.crcOk && n.Size() > 0 ==> exists m :: m in s && Supersedes(m, n)
  }

  ghost predicate Distinct(s: set<Tn>) {
    forall m, n :: m in s && n in s && m.version == n.version ==> m == n
  }

  lemma DropSuperseded(arrived: set<Tn>, s: set<Tn>, s': set<Tn>, t: Tn, m: Tn)
    requires Kept(arrived, s) && s - {t} <= s' && m in s' && (t.crcOk ==> Supersedes(m, t))
    ensures Kept(arrived, s')
  {
    forall n | n in arrived && n.crcOk && n.Size() > 0
      ensures exists m' :: m' in s' && Supersedes(m', n)
    {
      var k :| k in s && Supersedes(k, n);
      assert k == t ==> Supersedes(m, n);
      assert k != t ==> k in s';
    }
  }

  lemma DropBad(arrived: set<Tn>, s: set<Tn>, s': set<Tn>, t: Tn)
    requires Kept(arrived, s) && s - {t} <= s' && !t.crcOk
    ensures Kept(arrived, s')
  {
    forall n | n in arrived && n.crcOk && n.Size() > 0
      ensures exists m' :: m' in s' && Supersedes(m', n)
    {
      var k :| k in s && Supersedes(k, n);
      assert k in s';
    }
  }

  /** A good node that covers a byte is represented there by one no older. */
  lemma Represented(arrived: set<Tn>, s: set<Tn>, x: int, n: Tn) returns (m: Tn)
    requires Kept(arrived, s) && n in arrived && n.crcOk && n.Covers(x)
    ensures m in s && m.crcOk && m.Covers(x) && n.version <= m.version
  {
    assert n.Size() > 0;
    m :| m in s && Supersedes(m, n);
  }

  /** What is newest among the kept nodes is newest among all that arrived. */
  lemma KeptIsEnough(arrived: set<Tn>, s: set<Tn>, x: int, v: F.Option<F.NodeId>)
    requires Kept(arrived, s) && s <= arrived && Newest(s, x, v)
    ensures Newest(arrived, x, v)
  {
    hide Kept;
    if v.None? {
      forall n | n in arrived && n.crcOk ensures !n.Covers(x) {
        if n.Covers(x) {
          var m := Represented(arrived, s, x, n);
        }
      }
    } else {
      var n :| n in s && n.version == v.value && IsNewest(s, x, n);
      forall m | m in arrived && m.crcOk && m.Covers(x) ensures m.version <= n.version {
        var k := Represented(arrived, s, x, m);
      }
      assert IsNewest(arrived, x, n);
    }
  }

  // ----- The ordered tree -----

  ghost function Nodes(t: seq<Entry>): set<Tn> {
    set i | 0 <= i < |t| :: t[i].tn
  }

  ghost predicate Sorted(t: seq<Entry>) {
    forall i, j :: 0 <= i < j < |t| ==> Before(t[i].tn, t[j].tn)
  }

  /** By offset, and among equal offsets the shorter first. */
  predicate Before(a: Tn, b: Tn) {
    a.Ofs() < b.Ofs() || (a.Ofs() == b.Ofs() && a.Size() <= b.Size())
  }

  /** An entry without the flag starts where every earlier entry has already ended. */
  ghost predicate Flagged(t: seq<Entry>) {
    forall i, j :: 0 <= j < i < |t| && !t[i].overlapped ==> t[j].tn.End() <= t[i].tn.Ofs()
  }

  ghost predicate Unique(t: seq<Entry>) {
    forall i, j :: 0 <= i < j < |t| ==> t[i].tn.version != t[j].tn.version
  }

  ghost predicate Ordered(t: seq<Entry>) {
    Sorted(t) && Flagged(t) && Unique(t) && forall i :: 0 <= i < |t| ==> t[i].tn.Size() > 0
  }

  function Erased(t: seq<Entry>, i: nat): seq<Entry>
    requires i < |t|
  {
    t[..i] + t[i + 1..]
  }

  function Unflagged(t: seq<Entry>, i: nat): seq<Entry>
    requires i < |t|
  {
    t[i := t[i].(overlapped := false)]
  }

  lemma ErasedOrdered(t: seq<Entry>, i: nat)
    requires Ordered(t) && i < |t|
    ensures Ordered(Erased(t, i)) && Nodes(t) - {t[i].tn} <= Nodes(Erased(t, i)) <= Nodes(t)
  {
    var e := Erased(t, i);
    assert forall k :: 0 <= k < |e| ==> e[k] == t[if k < i then k else k + 1];
    ErasedNodes(t, i);
  }

  lemma ErasedNodes(t: seq<Entry>, i: nat)
    requires i < |t|
    ensures Nodes(t) - {t[i].tn} <= Nodes(Erased(t, i)) <= Nodes(t)
  {
    var e := Erased(t, i);
    forall n | n in Nodes(t) - {t[i].tn}
      ensures n in Nodes(e)
    {
      var k :| 0 <= k < |t| && t[k].tn == n;
      assert e[if k < i then k else k - 1].tn == n;
    }
    forall n | n in Nodes(e)
      ensures n in Nodes(t)
    {
      var k :| 0 <= k < |e| && e[k].tn == n;
      assert t[if k < i then k else k + 1].tn == n;
    }
  }

  class ReadInodeInfo {
    var tnRoot: seq<Entry>
    var mdata: F.Option<Tn>
    var latest: F.Option<Tn> // latest_ref
    ghost var arrived: set<Tn>

    constructor ()
      ensures Valid() && arrived == {} && latest == F.None
    {
      tnRoot, mdata, latest, arrived := [], F.None, F.None, {};
    }

    ghost predicate Valid()
      reads this
    {
      && Ordered(tnRoot) && Nodes(tnRoot) <= arrived && Kept(arrived, Nodes(tnRoot)) && Distinct(arrived)
      && (mdata.Some? ==> mdata.value in arrived && mdata.value.Size() == 0)
      && (forall n :: n in arrived && n.Size() == 0 ==> mdata.Some? && n.version <= mdata.value.version)
    }

    /** The last entry on the way down to `offset` in a search tree of any shape, or -1. */
    method LookupTn(offset: nat) returns (last: int)
      requires Sorted(tnRoot)
      ensures if tnRoot == [] then last == -1 else 0 <= last < |tnRoot|
      ensures forall i :: 0 <= i < last ==> tnRoot[i].tn.Ofs() < offset
      ensures forall i :: last < i < |tnRoot| ==> tnRoot[i].tn.Ofs() >= offset
    {
      var lo, hi := 0, |tnRoot|;
      last := -1;
      while lo < hi
        invariant 0 <= lo <= hi <= |tnRoot| && -1 <= last < |tnRoot|
        invariant if last == -1 then lo == 0 && hi == |tnRoot| else last == lo - 1 || last == hi
        invariant forall i :: 0 <= i < lo ==> tnRoot[i].tn.Ofs() < offset
        invariant forall i :: hi <= i < |tnRoot| ==> tnRoot[i].tn.Ofs() >= offset
      {
        last :| lo <= last < hi;
        if tnRoot[last].tn.Ofs() < offset {
          lo := last + 1;
        } else {
          hi := last;
        }
      }
    }

    /** Backs up to the first entry of a flagged stretch; a flag on the very first entry is stale. */
    method BackUp(start: nat) returns (cur: nat)
      requires Ordered(tnRoot) && start < |tnRoot|
      modifies `tnRoot
      ensures Ordered(tnRoot) && Nodes(tnRoot) == old(Nodes(tnRoot)) && |tnRoot| == old(|tnRoot|)
      ensures cur <= start && !tnRoot[cur].overlapped
    {
      cur := start;
      while tnRoot[cur].overlapped
        invariant cur <= start && tnRoot == old(tnRoot)
        decreases cur
      {
        if cur == 0 {
          UnflaggedFirst(tnRoot);
          tnRoot := Unflagged(tnRoot, 0);
          return;
        }
        cur := cur - 1;
      }
    }

    method Erase(i: nat)
      requires i < |tnRoot|
      modifies `tnRoot
      ensures tnRoot == Erased(old(tnRoot), i)
    {
      tnRoot := tnRoot[..i] + tnRoot[i + 1..];
    }

    /** Kills every older entry from `start` on that ends inside the new node. */
    method KillCovered(tn: Tn, start: nat, ghost all: set<Tn>) returns (cur: nat)
      requires Ordered(tnRoot) && start < |tnRoot| && tn.crcOk
      requires tn.Ofs() <= tnRoot[start].tn.Ofs() && tnRoot[start].tn.End() <= tn.End()
      requires Kept(all, Nodes(tnRoot) + {tn})
      modifies `tnRoot
      ensures Ordered(tnRoot) && Nodes(tnRoot) <= old(Nodes(tnRoot)) && Kept(all, Nodes(tnRoot) + {tn})
      ensures cur <= |tnRoot| && |tnRoot| - cur < old(|tnRoot|) - start
    {
      hide Kept, Ordered;
      cur := start;
      while cur < |tnRoot| && tnRoot[cur].tn.End() <= tn.End()
        invariant Ordered(tnRoot) && Nodes(tnRoot) <= old(Nodes(tnRoot)) && Kept(all, Nodes(tnRoot) + {tn})
        invariant start <= cur <= |tnRoot| <= old(|tnRoot|)
        invariant cur < |tnRoot| ==> tn.Ofs() <= tnRoot[cur].tn.Ofs()
        invariant |tnRoot| - cur < old(|tnRoot|) - start || (tnRoot == old(tnRoot) && cur == start)
        decreases |tnRoot| - cur
      {
        SortedNext(tnRoot, cur);
        if tnRoot[cur].tn.version < tn.version {
          ErasedOrdered(tnRoot, cur);
          DropSuperseded(all, Nodes(tnRoot) + {tn}, Nodes(Erased(tnRoot, cur)) + {tn}, tnRoot[cur].tn, tn);
          Erase(cur);
        } else {
          cur := cur + 1;
        }
      }
    }

    /**
     Walks the entries that may matter to the new node.  Older ones it covers are killed, provided
     it is good; if a good newer one covers it, or if it turns out bad, the new node is not wanted.
     */
    method Prune(tn: Tn, start: nat, ghost all: set<Tn>) returns (wanted: bool)
      requires Ordered(tnRoot) && start <= |tnRoot| && tn.Size() > 0
      requires forall n :: n in Nodes(tnRoot) ==> n.version != tn.version
      requires Kept(all, Nodes(tnRoot) + {tn})
      modifies `tnRoot
      ensures Ordered(tnRoot) && Nodes(tnRoot) <= old(Nodes(tnRoot))
      ensures Kept(all, if wanted then Nodes(tnRoot) + {tn} else Nodes(tnRoot))
    {
      hide Kept, Ordered;
      var cur := start;
      while cur < |tnRoot|
        invariant 0 <= cur <= |tnRoot| && Ordered(tnRoot) && Nodes(tnRoot) <= old(Nodes(tnRoot))
        invariant Kept(all, Nodes(tnRoot) + {tn})
        decreases |tnRoot| - cur
      {
        var this_ := tnRoot[cur].tn;
        if this_.Ofs() > tn.End() {
          break;
        }
        assert this_ in Nodes(tnRoot);
        if this_.version < tn.version && this_.Ofs() >= tn.Ofs() && this_.End() <= tn.End() {
          if !tn.crcOk {
            DropBad(all, Nodes(tnRoot) + {tn}, Nodes(tnRoot), tn);
            return false;
          }
          cur := KillCovered(tn, cur, all);
          continue;
        }
        if this_.version > tn.version && this_.Ofs() <= tn.Ofs() && this_.End() >= tn.End() {
          if this_.crcOk {
            DropSuperseded(all, Nodes(tnRoot) + {tn}, Nodes(tnRoot), tn, this_);
            return false;
          }
          ErasedOrdered(tnRoot, cur);
          DropBad(all, Nodes(tnRoot) + {tn}, Nodes(Erased(tnRoot, cur)) + {tn}, this_);
          Erase(cur);
          break;
        }
        cur := cur + 1;
      }
      return true;
    }

    /** The insertion point in a search tree of any shape: behind every entry that is not after `tn`. */
    method InsertPoint(tn: Tn) returns (k: nat)
      requires Sorted(tnRoot)
      ensures k <= |tnRoot|
      ensures forall i :: 0 <= i < k ==> Before(tnRoot[i].tn, tn)
      ensures forall i :: k <= i < |tnRoot| ==> !Before(tnRoot[i].tn, tn)
    {
      k := 0;
      var hi := |tnRoot|;
      while k < hi
        invariant 0 <= k <= hi <= |tnRoot|
        invariant forall i :: 0 <= i < k ==> Before(tnRoot[i].tn, tn)
        invariant forall i :: hi <= i < |tnRoot| ==> !Before(tnRoot[i].tn, tn)
      {
        var mid :| k <= mid < hi;
        var at := tnRoot[mid].tn;
        if tn.Ofs() > at.Ofs() {
          k := mid + 1;
        } else if tn.Ofs() < at.Ofs() || tn.Size() < at.Size() {
          hi := mid;
        } else {
          k := mid + 1;
        }
      }
    }

    /** Walks back from position `k` until it meets an entry that reaches past `ofs`, or need not look further. */
    method OverlapBehind(k: nat, ofs: nat) returns (overlapped: bool)
      requires Ordered(tnRoot) && k <= |tnRoot| && forall i :: 0 <= i < k ==> tnRoot[i].tn.Ofs() <= ofs
      modifies `tnRoot
      ensures Ordered(tnRoot) && Nodes(tnRoot) == old(Nodes(tnRoot)) && |tnRoot| == old(|tnRoot|)
      ensures forall i :: 0 <= i < |tnRoot| ==> tnRoot[i].tn == old(tnRoot)[i].tn
      ensures !overlapped ==> forall i :: 0 <= i < k ==> tnRoot[i].tn.End() <= ofs
    {
      var i := k;
      while i > 0
        invariant 0 <= i <= k && tnRoot == old(tnRoot)
        invariant forall j :: i <= j < k ==> tnRoot[j].tn.End() <= ofs
      {
        var this_ := tnRoot[i - 1];
        if this_.tn.End() > ofs {
          return true;
        }
        if !this_.overlapped {
          return false;
        }
        if i == 1 {
          UnflaggedFirst(tnRoot);
          tnRoot := Unflagged(tnRoot, 0);
          return false;
        }
        i := i - 1;
      }
      return false;
    }

    method Insert(tn: Tn)
      requires Ordered(tnRoot) && tn.Size() > 0
      requires forall n :: n in Nodes(tnRoot) ==> n.version != tn.version
      modifies `tnRoot
      ensures Ordered(tnRoot) && Nodes(tnRoot) == old(Nodes(tnRoot)) + {tn}
    {
      hide Nodes;
      var k := InsertPoint(tn);
      var overlapped := OverlapBehind(k, tn.Ofs());
      ghost var t, e := tnRoot, Entry(tn, overlapped);
      tnRoot := tnRoot[..k] + [Entry(tn, overlapped)] + tnRoot[k..];
      ghost var v := tnRoot;
      InsertedNodes(t, k, e);
      InsertedSorted(t, k, e);
      FlagAhead(k, tn.End());
      VersionsApart(t, tn);
      InsertedOrdered(t, k, e, tnRoot);
      SameNodes(v, tnRoot);
    }

    /** Flags every entry behind position `k` that starts before `end`. */
    method FlagAhead(k: nat, end: nat)
      requires k < |tnRoot| && Sorted(tnRoot)
      modifies `tnRoot
      ensures |tnRoot| == |old(tnRoot)|
      ensures forall j :: 0 <= j < |tnRoot| ==> tnRoot[j].tn == old(tnRoot)[j].tn
      ensures forall j :: 0 <= j < |tnRoot| && old(tnRoot)[j].overlapped ==> tnRoot[j].overlapped
      ensures forall j :: k < j < |tnRoot| && tnRoot[j].tn.Ofs() < end ==> tnRoot[j].overlapped
    {
      var i := k + 1;
      while i < |tnRoot| && tnRoot[i].tn.Ofs() < end
        invariant k < i <= |tnRoot| == |old(tnRoot)|
        invariant forall j :: 0 <= j < |tnRoot| ==> tnRoot[j].tn == old(tnRoot)[j].tn
        invariant forall j :: 0 <= j < |tnRoot| && old(tnRoot)[j].overlapped ==> tnRoot[j].overlapped
        invariant forall j :: k < j < i ==> tnRoot[j].overlapped
      {
        tnRoot := tnRoot[i := tnRoot[i].(overlapped := true)];
        i := i + 1;
      }
      assert i < |tnRoot| ==> forall j :: i < j < |tnRoot| ==> Before(old(tnRoot)[i].tn, old(tnRoot)[j].tn);
    }

    /** Takes in one node of the log.  Versions are distinct. */
    method AddTnToTree(tn: Tn)
      requires Valid() && forall n :: n in arrived ==> n.version != tn.version
      modifies this
      ensures Valid() && arrived == old(arrived) + {tn} && latest == old(latest)
    {
      hide Ordered, Kept, Nodes;
      KeptGrows(arrived, Nodes(tnRoot), tn);
      arrived := arrived + {tn};
      if tn.Size() == 0 {
        if mdata.None? || mdata.value.version < tn.version {
          mdata := F.Some(tn);
        }
        KeptEmpty(old(arrived), Nodes(tnRoot), tn);
        return;
      }
      AddData(tn);
    }

    method AddData(tn: Tn)
      requires Ordered(tnRoot) && tn.Size() > 0 && Kept(arrived, Nodes(tnRoot) + {tn})
      requires forall n :: n in Nodes(tnRoot) ==> n.version != tn.version
      modifies `tnRoot
      ensures Ordered(tnRoot) && Nodes(tnRoot) <= old(Nodes(tnRoot)) + {tn} && Kept(arrived, Nodes(tnRoot))
    {
      hide Ordered, Kept;
      var cur := LookupFrom(tn.Ofs());
      var wanted := Prune(tn, cur, arrived);
      if wanted {
        Insert(tn);
      }
    }

    /**
     * The start of the stretch around `ofs`, which no earlier entry reaches into; the end of the
     * tree if it is empty.
     */
    method LookupFrom(ofs: nat) returns (cur: nat)
      requires Ordered(tnRoot)
      modifies `tnRoot
      ensures Ordered(tnRoot) && Nodes(tnRoot) == old(Nodes(tnRoot)) && cur <= |tnRoot|
      ensures cur < |tnRoot| ==> forall i :: 0 <= i < cur ==> tnRoot[i].tn.End() <= tnRoot[cur].tn.Ofs()
    {
      var last := LookupTn(ofs);
      if last < 0 {
        return |tnRoot|;
      }
      cur := BackUp(last);
    }

    /** Replays one group in ascending version order. */
    method Replay(group: seq<Tn>, inode: F.Inode, highVer0: nat, ghost done: set<Tn>) returns (highVer: nat)
      requires inode.Valid() && Holds(inode.fragtree, inode.nodes, done)
      requires Descending(group)
      requires forall m, n :: m in done && n in group ==> m.version != n.version && Disjoint(m, n)
      requires Tops(done, latest, highVer0)
      modifies inode, `latest
      ensures inode.Valid() && Holds(inode.fragtree, inode.nodes, done + Elements(group))
      ensures Tops(done + Elements(group), latest, highVer)
      ensures latest == old(latest) ||
              (latest.Some? && latest.value in group && latest.value.crcOk && latest.value.version > 0)
      ensures highVer >= highVer0
    {
      hide Holds, Tops, Elements, Distinct;
      highVer := highVer0;
      var left := group;
      ghost var cur := done;
      ElementsNil(group);
      while left != []
        invariant left <= group && cur == done + Elements(group[|left|..])
        invariant inode.Valid() && Holds(inode.fragtree, inode.nodes, cur) && Tops(cur, latest, highVer)
        invariant latest == old(latest) ||
                  (latest.Some? && latest.value in group && latest.value.crcOk && latest.value.version > 0)
        invariant highVer >= highVer0
        decreases |left|
      {
        var this_ := left[|left| - 1];
        NewestYet(group, |left| - 1, done, cur);
        left := left[..|left| - 1];
        highVer := ReplayOne(this_, inode, highVer, cur);
        cur := cur + {this_};
      }
      assert group[0..] == group;
    }

    method ReplayOne(this_: Tn, inode: F.Inode, highVer0: nat, ghost cur: set<Tn>) returns (highVer: nat)
      requires inode.Valid() && Holds(inode.fragtree, inode.nodes, cur) && Tops(cur, latest, highVer0)
      requires forall m :: m in cur ==> m.version != this_.version && (m.version < this_.version || Disjoint(m, this_))
      modifies inode, `latest
      ensures inode.Valid() && Holds(inode.fragtree, inode.nodes, cur + {this_})
      ensures Tops(cur + {this_}, latest, highVer) && highVer >= highVer0
      ensures latest == old(latest) || (latest == F.Some(this_) && this_.crcOk && this_.version > 0)
    {
      hide Holds;
      highVer := highVer0;
      ghost var f, nodes := inode.fragtree, inode.nodes;
      VersionFree(f, nodes, cur, this_);
      if this_.crcOk {
        if this_.version > highVer {
          highVer := this_.version;
          latest := F.Some(this_);
        }
        inode.AddFullDnode(this_.version, this_.node);
      }
      HoldsAfter(f, nodes, inode.fragtree, inode.nodes, cur, this_);
    }

    /** Inserts into the version tree, which runs from the newest to the oldest. */
    method VerInsert(group: seq<Tn>, tn: Tn) returns (r: seq<Tn>)
      requires Descending(group) && forall n :: n in group ==> n.version != tn.version
      ensures Descending(r) && Elements(r) == Elements(group) + {tn}
    {
      hide Elements;
      var lo, hi := 0, |group|;
      while lo < hi
        invariant 0 <= lo <= hi <= |group|
        invariant forall i :: 0 <= i < lo ==> group[i].version > tn.version
        invariant forall i :: hi <= i < |group| ==> group[i].version < tn.version
      {
        var mid :| lo <= mid < hi;
        if tn.version > group[mid].version {
          hi := mid;
        } else {
          lo := mid + 1;
        }
      }
      r := group[..lo] + [tn] + group[lo..];
      ElementsInsert(group, lo, tn);
      assert forall i :: 0 <= i < |r| ==> r[i] == if i < lo then group[i] else if i == lo then tn else group[i - 1];
    }

    /**
     Consumes the temporary tree from its end.  Flagged nodes pile up in the version tree until an
     unflagged one closes the group.  The result shows, for every byte, the newest good node of
     all that ever arrived, and `latest` is the newest usable node.
     */
    method BuildInodeFragtree(inode: F.Inode)
      requires Valid() && latest == F.None
      requires inode.Valid() && inode.fragtree == [] && inode.nodes == map[]
      modifies this, inode
      ensures inode.Valid() && arrived == old(arrived)
      ensures forall x: int :: Newest(arrived, x, F.Owner(inode.fragtree, x))
      ensures forall v :: v in inode.nodes ==> exists n :: n in arrived && n.version == v && n.node == inode.nodes[v]
      ensures LatestOf(arrived, latest)
    {
      ghost var t := tnRoot;
      var highVer: nat := 0;
      if mdata.Some? {
        highVer := mdata.value.version;
        latest := mdata;
      }
      BuiltNothing(t, inode.fragtree, inode.nodes, latest, highVer);
      highVer := ConsumeTree(inode, highVer);
      EverythingBuilt(arrived, Nodes(t), inode.fragtree, inode.nodes);
      TopsAll(arrived, Nodes(t), latest, highVer);
    }

    method ConsumeTree(inode: F.Inode, highVer0: nat) returns (highVer: nat)
      requires inode.Valid() && Built(tnRoot, |tnRoot|, tnRoot, [], inode.fragtree, inode.nodes, latest, highVer0)
      modifies `tnRoot, `latest, inode
      ensures inode.Valid() && Holds(inode.fragtree, inode.nodes, old(Nodes(tnRoot)))
      ensures Tops(old(Nodes(tnRoot)), latest, highVer) && highVer >= highVer0
      ensures latest == old(latest) ||
              (latest.Some? && latest.value in old(Nodes(tnRoot)) && latest.value.crcOk && latest.value.version > 0)
    {
      hide Holds, Ordered, Nodes, Elements, Descending, SplitAt, Tops, Distinct;
      highVer := highVer0;
      ghost var t := tnRoot;
      var group: seq<Tn> := [];
      ghost var b: nat := |t|;
      while tnRoot != []
        invariant Built(t, b, tnRoot, group, inode.fragtree, inode.nodes, latest, highVer)
        invariant inode.Valid() && highVer >= highVer0
        invariant latest == old(latest) ||
                  (latest.Some? && latest.value in Nodes(t) && latest.value.crcOk && latest.value.version > 0)
        decreases |tnRoot|
      {
        var last := tnRoot[|tnRoot| - 1];
        GroupGrows(t, b, tnRoot, group);
        tnRoot := tnRoot[..|tnRoot| - 1];
        group := VerInsert(group, last.tn);
        if last.overlapped && tnRoot != [] {
          continue;
        }
        GroupApart(t, b, |tnRoot|, group);
        highVer := Replay(group, inode, highVer, Nodes(t[b..]));
        GroupDone(t, b, |tnRoot|, group);
        group, b := [], |tnRoot|;
      }
      assert t[0..] == t;
    }
  }

  /**
   The whole of it: feeding any log of distinctly versioned nodes, in the order it happens to be
   in, leaves an inode whose every byte is that of the newest good node, and zero where there is none.
   */
  method ReadLog(log: seq<Tn>) returns (inode: F.Inode, latest: F.Option<Tn>)
    requires forall i, j :: 0 <= i < j < |log| ==> log[i].version != log[j].version
    ensures fresh(inode) && inode.Valid()
    ensures forall x: int :: Newest(Elements(log), x, F.Owner(inode.fragtree, x))
    ensures forall n, x: int :: n in log && IsNewest(Elements(log), x, n) ==>
            inode.ByteAt(x) == n.node.data[x - n.Ofs()]
    ensures forall x: int :: (forall n :: n in log && n.crcOk ==> !n.Covers(x)) ==> inode.ByteAt(x) == 0
    ensures LatestOf(Elements(log), latest)
  {
    hide Newest, IsNewest, Ordered, Kept, F.ContentAt;
    var rii := new ReadInodeInfo();
    for i := 0 to |log|
      invariant fresh(rii) && rii.Valid() && rii.arrived == Elements(log[..i]) && rii.latest == F.None
    {
      ElementsLast(log, i);
      rii.AddTnToTree(log[i]);
    }
    assert log[..|log|] == log;
    inode := new F.Inode();
    rii.BuildInodeFragtree(inode);
    latest := rii.latest;
    ContentShown(log, inode.fragtree, inode.nodes);
  }

  /** Hence, with a usable node at all, the newest is missed exactly if it is a data node of version 0. */
  lemma LatestMissed(s: set<Tn>, latest: F.Option<Tn>, n: Tn)
    requires Distinct(s) && LatestOf(s, latest) && n in s && n.Usable() &&
             forall m :: m in s && m.Usable() ==> m.version <= n.version
    ensures latest == (if n.version == 0 && n.Size() > 0 then F.None else F.Some(n))
  {
    if latest.Some? {
      assert latest.value.version == n.version;
    }
  }

  /** A log of one good data node of version 0: its byte is there, but it is not the latest. */
  method VersionZero() returns (byte: F.byte, latest: F.Option<Tn>)
    ensures byte == 7 && latest == F.None
  {
    var n := Tn(0, F.Node(0, [7]), true);
    var inode;
    inode, latest := ReadLog([n]);
    assert Elements([n]) == {n} by {
      assert [n][0] == n;
    }
    assert IsNewest({n}, 0, n);
    var buf := inode.ReadInodeRange(0, 1);
    byte := buf[0];
    LatestMissed({n}, latest, n);
  }

  lemma ContentShown(log: seq<Tn>, f: seq<F.Frag>, nodes: map<F.NodeId, F.Node>)
    requires F.Tiles(f, 0, F.EndOf(f)) && F.Backed(f, nodes) && Distinct(Elements(log))
    requires forall x: int :: Newest(Elements(log), x, F.Owner(f, x))
    requires forall v :: v in nodes ==> exists m :: m in Elements(log) && m.version == v && m.node == nodes[v]
    ensures forall n, x: int :: n in log && IsNewest(Elements(log), x, n) ==>
              F.ContentAt(f, nodes, x) == n.node.data[x - n.Ofs()]
    ensures forall x: int :: (forall n :: n in log && n.crcOk ==> !n.Covers(x)) ==> F.ContentAt(f, nodes, x) == 0
  {
    forall n, x: int | n in log && IsNewest(Elements(log), x, n)
      ensures F.ContentAt(f, nodes, x) == n.node.data[x - n.Ofs()]
    {
      ShowsNewest(Elements(log), f, nodes, x, n);
    }
    forall x: int | forall n :: n in log && n.crcOk ==> !n.Covers(x)
      ensures F.ContentAt(f, nodes, x) == 0
    {
      assert Newest(Elements(log), x, F.Owner(f, x));
    }
  }

  lemma ElementsLast(g: seq<Tn>, i: nat)
    requires i < |g| && forall i, j :: 0 <= i < j < |g| ==> g[i].version != g[j].version
    ensures Elements(g[..i + 1]) == Elements(g[..i]) + {g[i]}
    ensures forall n :: n in Elements(g[..i]) ==> n.version != g[i].version
  {
    var a, b := g[..i], g[..i + 1];
    assert b[i] == g[i] && forall k :: 0 <= k < i ==> a[k] == b[k] == g[k];
    forall n | n in Elements(a)
      ensures n in Elements(b) && n.version != g[i].version
    {
      var k :| 0 <= k < i && a[k] == n;
      assert b[k] == n && g[k] == n;
    }
    forall n | n in Elements(b)
      ensures n in Elements(a) + {g[i]}
    {
      var k :| 0 <= k <= i && b[k] == n;
      assert k < i ==> a[k] == n;
    }
  }

  lemma ShowsNewest(s: set<Tn>, f: seq<F.Frag>, nodes: map<F.NodeId, F.Node>, x: int, n: Tn)
    requires F.Tiles(f, 0, F.EndOf(f)) && F.Backed(f, nodes) && Distinct(s)
    requires Newest(s, x, F.Owner(f, x)) && n in s && IsNewest(s, x, n)
    requires forall v :: v in nodes ==> exists m :: m in s && m.version == v && m.node == nodes[v]
    ensures F.ContentAt(f, nodes, x) == n.node.data[x - n.Ofs()]
  {
    var m :| m in s && m.version == F.Owner(f, x).value && IsNewest(s, x, m);
    assert m.version == n.version;
    F.OwnerInNode(f, 0, F.EndOf(f), nodes, x);
    var k :| k in s && k.version == n.version && k.node == nodes[n.version];
  }

  ghost function Elements(g: seq<Tn>): set<Tn> {
    set i | 0 <= i < |g| :: g[i]
  }

  lemma ElementsHead(g: seq<Tn>, i: nat)
    requires i < |g|
    ensures Elements(g[i..]) == {g[i]} + Elements(g[i + 1..])
  {
    assert g[i..] == [g[i]] + g[i + 1..];
  }

  lemma ElementsNil(g: seq<Tn>)
    ensures Elements(g[|g|..]) == {}
  {
  }

  /** Going up through the versions, the next node is newer than everything replayed that it can meet. */
  lemma NewestYet(g: seq<Tn>, i: nat, done: set<Tn>, cur: set<Tn>)
    requires i < |g| && Descending(g) && cur == done + Elements(g[i + 1..])
    requires forall m, n :: m in done && n in g ==> m.version != n.version && Disjoint(m, n)
    ensures forall m :: m in cur ==> m.version != g[i].version && (m.version < g[i].version || Disjoint(m, g[i]))
    ensures cur + {g[i]} == done + Elements(g[i..])
  {
    ElementsHead(g, i);
    forall m | m in Elements(g[i + 1..])
      ensures m.version < g[i].version
    {
      var k :| 0 <= k < |g[i + 1..]| && g[i + 1..][k] == m;
      assert g[i + 1 + k] == m;
    }
  }

  lemma ElementsInsert(g: seq<Tn>, k: nat, tn: Tn)
    requires k <= |g|
    ensures Elements(g[..k] + [tn] + g[k..]) == Elements(g) + {tn}
  {
    var r := g[..k] + [tn] + g[k..];
    assert r[k] == tn;
    forall n | n in Elements(g)
      ensures n in Elements(r)
    {
      var i :| 0 <= i < |g| && g[i] == n;
      assert r[if i < k then i else i + 1] == n;
    }
    forall n | n in Elements(r)
      ensures n in Elements(g) + {tn}
    {
      var i :| 0 <= i < |r| && r[i] == n;
      assert i < k ==> r[i] == g[i];
      assert i > k ==> r[i] == g[i - 1];
    }
  }

  ghost predicate Descending(g: seq<Tn>) {
    forall i, j :: 0 <= i < j < |g| ==> g[i].version > g[j].version
  }

  ghost predicate Disjoint(m: Tn, n: Tn) {
    m.End() <= n.Ofs() || n.End() <= m.Ofs()
  }

  /** The fragment tree shows, byte by byte, the newest good node of `s`, and knows those nodes' data. */
  ghost predicate Holds(f: seq<F.Frag>, nodes: map<F.NodeId, F.Node>, s: set<Tn>) {
    && (forall x: int :: Newest(s, x, F.Owner(f, x)))
    && (forall v :: v in nodes ==> exists n :: n in s && n.version == v && n.node == nodes[v])
  }

  /** `highVer` is at least every good version seen, and `latest` is the node that set it. */
  ghost predicate Tops(s: set<Tn>, latest: F.Option<Tn>, highVer: nat) {
    && (forall n :: n in s && n.crcOk ==> n.version <= highVer)
    && (highVer > 0 ==> latest.Some?)
    && (latest.Some? ==> latest.value.version == highVer)
  }

  /** Everything from index `b` on ends its business before index `b` begins. */
  ghost predicate SplitAt(t: seq<Entry>, b: nat) {
    forall i, j :: 0 <= i < b <= j < |t| ==> t[i].tn.End() <= t[j].tn.Ofs()
  }

  /** The tree `t` has been replayed from `b` on, and `group` holds what lies between `root` and `b`. */
  ghost predicate Built(t: seq<Entry>, b: nat, root: seq<Entry>, group: seq<Tn>, f: seq<F.Frag>,
                        nodes: map<F.NodeId, F.Node>, latest: F.Option<Tn>, highVer: nat) {
    && Ordered(t) && |root| <= b <= |t| && root == t[..|root|] && (root == [] ==> b == 0)
    && Descending(group) && Elements(group) == Nodes(t[|root|..b]) && SplitAt(t, b)
    && Holds(f, nodes, Nodes(t[b..])) && Tops(Nodes(t[b..]), latest, highVer)
  }

  lemma BuiltNothing(t: seq<Entry>, f: seq<F.Frag>, nodes: map<F.NodeId, F.Node>, latest: F.Option<Tn>, highVer: nat)
    requires Ordered(t) && f == [] && nodes == map[]
    requires (highVer > 0 ==> latest.Some?) && (latest.Some? ==> latest.value.version == highVer)
    ensures Built(t, |t|, t, [], f, nodes, latest, highVer)
  {
    assert t[|t|..] == [] && t[..|t|] == t;
  }

  lemma NodesSplit(t: seq<Entry>, i: nat, j: nat, k: nat)
    requires i <= j <= k <= |t|
    ensures Nodes(t[i..k]) == Nodes(t[i..j]) + Nodes(t[j..k])
  {
    assert t[i..k] == t[i..j] + t[j..k];
    forall n | n in Nodes(t[i..k])
      ensures n in Nodes(t[i..j]) + Nodes(t[j..k])
    {
      var m :| 0 <= m < k - i && t[i..k][m].tn == n;
      if m < j - i {
        assert t[i..j][m].tn == n;
      } else {
        assert t[j..k][m - (j - i)].tn == n;
      }
    }
    forall n | n in Nodes(t[i..j]) + Nodes(t[j..k])
      ensures n in Nodes(t[i..k])
    {
      if n in Nodes(t[i..j]) {
        var m :| 0 <= m < j - i && t[i..j][m].tn == n;
        assert t[i..k][m].tn == n;
      } else {
        var m :| 0 <= m < k - j && t[j..k][m].tn == n;
        assert t[i..k][m + (j - i)].tn == n;
      }
    }
  }

  lemma GroupGrows(t: seq<Entry>, b: nat, root: seq<Entry>, group: seq<Tn>)
    requires Ordered(t) && 0 < |root| <= b <= |t| && root == t[..|root|] && Elements(group) == Nodes(t[|root|..b])
    ensures var k := |root| - 1;
            && root[..k] == t[..k] && root[k] == t[k]
            && Elements(group) + {root[k].tn} == Nodes(t[k..b])
            && forall n :: n in group ==> n.version != root[k].tn.version
  {
    var k := |root| - 1;
    NodesSplit(t, k, |root|, b);
    assert t[k..|root|] == [t[k]];
    assert Nodes(t[k..|root|]) == {t[k].tn} by {
      assert t[k..|root|][0].tn == t[k].tn;
    }
    forall n | n in group
      ensures n.version != root[k].tn.version
    {
      assert n in Elements(group);
      var m :| 0 <= m < b - |root| && t[|root|..b][m].tn == n;
      assert t[|root| + m].tn == n;
    }
  }

  lemma NodeIndex(t: seq<Entry>, i: nat, j: nat, n: Tn) returns (k: nat)
    requires i <= j <= |t| && n in Nodes(t[i..j])
    ensures i <= k < j && t[k].tn == n
  {
    var m :| 0 <= m < j - i && t[i..j][m].tn == n;
    k := i + m;
  }

  lemma GroupApart(t: seq<Entry>, b: nat, k: nat, group: seq<Tn>)
    requires Ordered(t) && k <= b <= |t| && SplitAt(t, b) && Elements(group) == Nodes(t[k..b])
    ensures forall m, n :: m in Nodes(t[b..]) && n in group ==> m.version != n.version && Disjoint(m, n)
  {
    assert t[b..|t|] == t[b..];
    forall m, n | m in Nodes(t[b..]) && n in group
      ensures m.version != n.version && Disjoint(m, n)
    {
      assert n in Elements(group);
      hide Nodes, Elements;
      var i := NodeIndex(t, k, b, n);
      var j := NodeIndex(t, b, |t|, m);
    }
  }

  lemma GroupDone(t: seq<Entry>, b: nat, k: nat, group: seq<Tn>)
    requires Ordered(t) && k < b <= |t| && Elements(group) == Nodes(t[k..b]) && (k == 0 || !t[k].overlapped)
    ensures SplitAt(t, k) && Nodes(t[b..]) + Elements(group) == Nodes(t[k..])
    ensures Descending([]) && Elements([]) == Nodes(t[k..k]) && forall n :: n in group ==> n in Nodes(t)
  {
    NodesSplit(t, k, b, |t|);
    NodesSplit(t, 0, k, |t|);
    assert t[0..|t|] == t;
    assert forall n :: n in group ==> n in Elements(group);
    assert t[k..|t|] == t[k..] && t[b..|t|] == t[b..] && t[k..k] == [];
    assert forall j :: k < j < |t| ==> Before(t[k].tn, t[j].tn);
  }

  lemma EverythingBuilt(arrived: set<Tn>, s: set<Tn>, f: seq<F.Frag>, nodes: map<F.NodeId, F.Node>)
    requires Kept(arrived, s) && s <= arrived && Holds(f, nodes, s)
    ensures forall x: int :: Newest(arrived, x, F.Owner(f, x))
    ensures forall v :: v in nodes ==> exists n :: n in arrived && n.version == v && n.node == nodes[v]
  {
    forall x: int
      ensures Newest(arrived, x, F.Owner(f, x))
    {
      KeptIsEnough(arrived, s, x, F.Owner(f, x));
    }
  }

  lemma TopsAll(arrived: set<Tn>, s: set<Tn>, latest: F.Option<Tn>, highVer: nat)
    requires Kept(arrived, s) && Tops(s, latest, highVer)
    ensures forall n :: n in arrived && n.crcOk && n.Size() > 0 ==> n.version <= highVer
  {
  }

  lemma VersionFree(f: seq<F.Frag>, nodes: map<F.NodeId, F.Node>, s: set<Tn>, n: Tn)
    requires Holds(f, nodes, s) && forall m :: m in s ==> m.version != n.version
    ensures n.version !in nodes
  {
  }

  /** Overwriting with a node that is newer than everything it meets keeps the newest on show. */
  lemma HoldsAfter(f: seq<F.Frag>, nodes: map<F.NodeId, F.Node>, f': seq<F.Frag>, nodes': map<F.NodeId, F.Node>,
                   s: set<Tn>, n: Tn)
    requires Holds(f, nodes, s)
    requires forall m :: m in s ==> m.version < n.version || Disjoint(m, n)
    requires n.crcOk && n.Size() > 0 ==> nodes' == nodes[n.version := n.node]
    requires !n.crcOk || n.Size() == 0 ==> nodes' == nodes
    requires forall x: int :: F.Owner(f', x) == if n.crcOk && n.Covers(x) then F.Some(n.version) else F.Owner(f, x)
    ensures Holds(f', nodes', s + {n})
  {
    forall x: int
      ensures Newest(s + {n}, x, F.Owner(f', x))
    {
      assert Newest(s, x, F.Owner(f, x));
      if n.crcOk && n.Covers(x) {
        assert IsNewest(s + {n}, x, n);
      } else if F.Owner(f, x).Some? {
        var m :| m in s && m.version == F.Owner(f, x).value && IsNewest(s, x, m);
        assert m in s + {n} && IsNewest(s + {n}, x, m);
      }
    }
    forall v | v in nodes'
      ensures exists m :: m in s + {n} && m.version == v && m.node == nodes'[v]
    {
      if n.crcOk && n.Size() > 0 && v == n.version {
        assert n in s + {n};
      } else {
        var m :| m in s && m.version == v && m.node == nodes[v];
        assert m in s + {n};
      }
    }
  }

  /** A node without data needs no representative. */
  lemma KeptEmpty(arrived: set<Tn>, s: set<Tn>, tn: Tn)
    requires Kept(arrived, s) && tn.Size() == 0
    ensures Kept(arrived + {tn}, s)
  {
  }

  lemma KeptGrows(arrived: set<Tn>, s: set<Tn>, tn: Tn)
    requires Kept(arrived, s)
    ensures Kept(arrived + {tn}, s + {tn})
  {
    forall n | n in arrived + {tn} && n.crcOk && n.Size() > 0
      ensures exists m :: m in s + {tn} && Supersedes(m, n)
    {
      if n == tn {
        assert Supersedes(tn, n);
      } else {
        var m :| m in s && Supersedes(m, n);
        assert m in s + {tn};
      }
    }
  }

  lemma UnflaggedFirst(t: seq<Entry>)
    requires Ordered(t) && t != []
    ensures Ordered(Unflagged(t, 0)) && Nodes(Unflagged(t, 0)) == Nodes(t)
  {
    SameNodes(t, Unflagged(t, 0));
  }

  lemma VersionsApart(t: seq<Entry>, tn: Tn)
    requires forall n :: n in Nodes(t) ==> n.version != tn.version
    ensures forall i :: 0 <= i < |t| ==> t[i].tn.version != tn.version
  {
    assert forall i :: 0 <= i < |t| ==> t[i].tn in Nodes(t);
  }

  lemma SameNodes(t: seq<Entry>, u: seq<Entry>)
    requires |t| == |u| && forall i :: 0 <= i < |t| ==> t[i].tn == u[i].tn
    ensures Nodes(t) == Nodes(u)
  {
    forall n | n in Nodes(t)
      ensures n in Nodes(u)
    {
      var i :| 0 <= i < |t| && t[i].tn == n;
      assert u[i].tn == n;
    }
    forall n | n in Nodes(u)
      ensures n in Nodes(t)
    {
      var i :| 0 <= i < |u| && u[i].tn == n;
      assert t[i].tn == n;
    }
  }

  lemma SortedNext(t: seq<Entry>, i: nat)
    requires Ordered(t) && i < |t|
    ensures i + 1 < |t| ==> t[i].tn.Ofs() <= t[i + 1].tn.Ofs()
  {
  }

  function Inserted(t: seq<Entry>, k: nat, e: Entry): seq<Entry>
    requires k <= |t|
  {
    t[..k] + [e] + t[k..]
  }

  lemma InsertedNodes(t: seq<Entry>, k: nat, e: Entry)
    requires k <= |t|
    ensures Nodes(Inserted(t, k, e)) == Nodes(t) + {e.tn}
  {
    var u := Inserted(t, k, e);
    assert u[k] == e;
    forall n | n in Nodes(t)
      ensures n in Nodes(u)
    {
      var i :| 0 <= i < |t| && t[i].tn == n;
      assert u[if i < k then i else i + 1].tn == n;
    }
    forall n | n in Nodes(u)
      ensures n in Nodes(t) + {e.tn}
    {
      var i :| 0 <= i < |u| && u[i].tn == n;
      assert i < k ==> u[i] == t[i];
      assert i > k ==> u[i] == t[i - 1];
    }
  }

  lemma InsertedSorted(t: seq<Entry>, k: nat, e: Entry)
    requires Sorted(t) && k <= |t|
    requires forall i :: 0 <= i < k ==> Before(t[i].tn, e.tn)
    requires forall i :: k <= i < |t| ==> !Before(t[i].tn, e.tn)
    ensures Sorted(Inserted(t, k, e))
  {
    var v := Inserted(t, k, e);
    forall i, j | 0 <= i < j < |v|
      ensures Before(v[i].tn, v[j].tn)
    {
      var ti, tj := if i < k then i else i - 1, if j < k then j else j - 1;
      assert i != k ==> v[i] == t[ti];
      assert j != k ==> v[j] == t[tj];
    }
  }

  /** Inserting at the right place and flagging what the node reaches keeps the order and the flags' meaning. */
  lemma InsertedOrdered(t: seq<Entry>, k: nat, e: Entry, u: seq<Entry>)
    requires Ordered(t) && k <= |t| && e.tn.Size() > 0 && |u| == |t| + 1
    requires forall i :: 0 <= i < |t| ==> t[i].tn.version != e.tn.version
    requires forall i :: 0 <= i < k ==> Before(t[i].tn, e.tn)
    requires forall i :: k <= i < |t| ==> !Before(t[i].tn, e.tn)
    requires !e.overlapped ==> forall i :: 0 <= i < k ==> t[i].tn.End() <= e.tn.Ofs()
    requires forall j :: 0 <= j < |u| ==> u[j].tn == Inserted(t, k, e)[j].tn
    requires forall j :: 0 <= j < |u| && Inserted(t, k, e)[j].overlapped ==> u[j].overlapped
    requires forall j :: k < j < |u| && u[j].tn.Ofs() < e.tn.End() ==> u[j].overlapped
    ensures Ordered(u)
  {
    forall i, j | 0 <= i < j < |u|
      ensures Before(u[i].tn, u[j].tn) && u[i].tn.version != u[j].tn.version
      ensures !u[j].overlapped ==> u[i].tn.End() <= u[j].tn.Ofs()
    {
      InsertedPair(t, k, e, i, j);
    }
    forall i | 0 <= i < |u|
      ensures u[i].tn.Size() > 0
    {
      assert u[i].tn == Inserted(t, k, e)[i].tn;
    }
  }

  lemma InsertedPair(t: seq<Entry>, k: nat, e: Entry, i: nat, j: nat)
    requires Ordered(t) && k <= |t| && i < j <= |t|
    requires forall i :: 0 <= i < |t| ==> t[i].tn.version != e.tn.version
    requires forall i :: 0 <= i < k ==> Before(t[i].tn, e.tn)
    requires forall i :: k <= i < |t| ==> !Before(t[i].tn, e.tn)
    requires !e.overlapped ==> forall i :: 0 <= i < k ==> t[i].tn.End() <= e.tn.Ofs()
    ensures var v := Inserted(t, k, e);
            && Before(v[i].tn, v[j].tn) && v[i].tn.version != v[j].tn.version
            && (!v[j].overlapped && i != k ==> v[i].tn.End() <= v[j].tn.Ofs())
            && v[k] == e
  {
    var v := Inserted(t, k, e);
    var ti, tj := if i < k then i else i - 1, if j < k then j else j - 1;
    assert i != k ==> v[i] == t[ti];
    assert j != k ==> v[j] == t[tj];
  }
}
