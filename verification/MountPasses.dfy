/**
 * Link counts at mount time (jffs2/build.c).
 *
 * After the medium was scanned every inode has the list of directory entries found in it.  Pass 1
 * counts, for every inode, the entries that name it.  Passes 2 and 2a remove the inodes nothing
 * names, take their entries out of the counts, and go on with the inodes that lose their last
 * link that way.  The result is the least set of inodes closed under "not the root, and every
 * entry that names it is in a removed inode".
 */
module MountPasses {
  const ROOT: nat := 1

  /** The inode numbers named by the entries of each inode, in list order; 0 is a deletion entry. */
  type Dents = map<nat, seq<nat>>

  ghost predicate Distinct(s: seq<nat>) {
    forall i, j :: 0 <= i < j < |s| ==> s[i] != s[j]
  }

  /** How many entries of a list name x. */
  ghost function Occurrences(s: seq<nat>, x: nat): nat {
    if s == [] then 0 else (if s[0] == x then 1 else 0) + Occurrences(s[1..], x)
  }

  ghost predicate Known(inodes: seq<nat>, dents: Dents) {
    forall d :: d in inodes ==> d in dents
  }

  /** How many entries name x, over all inodes. */
  ghost function Links(inodes: seq<nat>, dents: Dents, x: nat): nat
    requires Known(inodes, dents)
  {
    if inodes == [] then 0 else Occurrences(dents[inodes[0]], x) + Links(inodes[1..], dents, x)
  }

  ghost function Entries(inodes: seq<nat>, dents: Dents): nat
    requires Known(inodes, dents)
  {
    if inodes == [] then 0 else |dents[inodes[0]]| + Entries(inodes[1..], dents)
  }

  /** A set that has every inode, save the root, all of whose entries are in inodes of the set. */
  ghost predicate Closed(inodes: seq<nat>, dents: Dents, s: set<nat>)
    requires Known(inodes, dents)
  {
    forall x :: x in inodes && x != ROOT && OnlyFrom(inodes, dents, s, x) ==> x in s
  }

  ghost predicate OnlyFrom(inodes: seq<nat>, dents: Dents, s: set<nat>, x: nat)
    requires Known(inodes, dents)
  {
    forall d :: d in inodes && x in dents[d] ==> d in s
  }

  ghost predicate LeastClosed(inodes: seq<nat>, dents: Dents, s: set<nat>)
    requires Known(inodes, dents)
  {
    Closed(inodes, dents, s) && forall t :: Closed(inodes, dents, t) ==> s <= t
  }

  // ---------------------------------------------------------------------------------------
  // Counting

  lemma {:induction false} OccursIff(s: seq<nat>, x: nat)
    ensures Occurrences(s, x) > 0 <==> x in s
  {
    if s != [] {
      OccursIff(s[1..], x);
      assert s == [s[0]] + s[1..];
    }
  }

  lemma {:induction false} LinkedIff(inodes: seq<nat>, dents: Dents, x: nat)
    requires Known(inodes, dents)
    ensures Links(inodes, dents, x) > 0 <==> exists d :: d in inodes && x in dents[d]
  {
    if inodes != [] {
      OccursIff(dents[inodes[0]], x);
      LinkedIff(inodes[1..], dents, x);
      assert inodes == [inodes[0]] + inodes[1..];
    }
  }

  /** Changing the list of one inode changes the counts by its share. */
  lemma {:induction false} LinksChange(inodes: seq<nat>, dents: Dents, d: nat, list: seq<nat>, x: nat)
    requires Known(inodes, dents) && Distinct(inodes) && d in dents
    ensures Links(inodes, dents[d := list], x) + (if d in inodes then Occurrences(dents[d], x) else 0)
         == Links(inodes, dents, x) + (if d in inodes then Occurrences(list, x) else 0)
    ensures Entries(inodes, dents[d := list]) + (if d in inodes then |dents[d]| else 0)
         == Entries(inodes, dents) + (if d in inodes then |list| else 0)
  {
    if inodes != [] {
      LinksChange(inodes[1..], dents, d, list, x);
      assert inodes == [inodes[0]] + inodes[1..];
    }
  }

  lemma {:induction false} OccurrencesSplit(a: seq<nat>, b: seq<nat>, x: nat)
    ensures Occurrences(a + b, x) == Occurrences(a, x) + Occurrences(b, x)
  {
    if a == [] {
      assert a + b == b;
    } else {
      OccurrencesSplit(a[1..], b, x);
      assert (a + b)[1..] == a[1..] + b;
    }
  }

  lemma {:induction false} LinksSplit(a: seq<nat>, b: seq<nat>, dents: Dents, x: nat)
    requires Known(a + b, dents)
    ensures Known(a, dents) && Known(b, dents)
    ensures Links(a + b, dents, x) == Links(a, dents, x) + Links(b, dents, x)
  {
    assert forall d :: d in a ==> d in a + b;
    assert forall d :: d in b ==> d in a + b;
    if a == [] {
      assert a + b == b;
    } else {
      assert (a + b)[1..] == a[1..] + b;
      LinksSplit(a[1..], b, dents, x);
    }
  }

  // ---------------------------------------------------------------------------------------
  // What the least closed set is

  lemma LeastUnique(inodes: seq<nat>, dents: Dents, s: set<nat>, t: set<nat>)
    requires Known(inodes, dents) && LeastClosed(inodes, dents, s) && LeastClosed(inodes, dents, t)
    ensures s == t
  {
  }

  /** Each member is named by an entry of a member. */
  ghost predicate SelfNamed(inodes: seq<nat>, dents: Dents, cycle: set<nat>)
    requires Known(inodes, dents)
  {
    forall x :: x in cycle ==> exists d :: d in inodes && d in cycle && x in dents[d]
  }

  /** Inodes that keep naming each other stay, reachable from the root or not. */
  lemma CyclesStay(inodes: seq<nat>, dents: Dents, removed: set<nat>, cycle: set<nat>)
    requires Known(inodes, dents) && LeastClosed(inodes, dents, removed) && SelfNamed(inodes, dents, cycle)
    ensures removed !! cycle
  {
    var rest := (set x | x in inodes) - cycle;
    forall x | x in cycle ensures !OnlyFrom(inodes, dents, rest, x) {
      var d :| d in inodes && d in cycle && x in dents[d];
      assert d !in rest;
    }
    hide SelfNamed, OnlyFrom;
    assert Closed(inodes, dents, rest);
  }

  /** Nothing a surviving inode names is removed, nor is the root. */
  lemma NamedStay(inodes: seq<nat>, dents: Dents, removed: set<nat>, d: nat, x: nat)
    requires Known(inodes, dents) && LeastClosed(inodes, dents, removed)
    requires d in inodes && d !in removed && x in dents[d]
    ensures x !in removed && ROOT !in removed
  {
    var less := removed - {x};
    forall y | y in inodes && y != ROOT && OnlyFrom(inodes, dents, less, y) ensures y in less {
      assert OnlyFrom(inodes, dents, removed, y);
      assert d !in less;
    }
    assert Closed(inodes, dents, less);
    var rootless := removed - {ROOT};
    forall y | y in inodes && y != ROOT && OnlyFrom(inodes, dents, rootless, y) ensures y in rootless {
      assert OnlyFrom(inodes, dents, removed, y);
    }
    assert Closed(inodes, dents, rootless);
  }

  // ---------------------------------------------------------------------------------------
  // Removed and unreachable

  ghost predicate Names(dents: Dents, d: nat, x: nat) {
    d in dents && x in dents[d]
  }

  /** A way down from the root, each inode named by an entry of the one before. */
  ghost predicate IsWay(inodes: seq<nat>, dents: Dents, way: seq<nat>)
    requires Known(inodes, dents)
  {
    way != [] && way[0] == ROOT && (forall i :: 0 <= i < |way| ==> way[i] in inodes) &&
    forall i :: 0 <= i < |way| - 1 ==> Names(dents, way[i], way[i + 1])
  }

  ghost predicate Reachable(inodes: seq<nat>, dents: Dents, x: nat)
    requires Known(inodes, dents)
  {
    exists way :: IsWay(inodes, dents, way) && way[|way| - 1] == x
  }

  ghost function Unreachable(inodes: seq<nat>, dents: Dents): set<nat>
    requires Known(inodes, dents)
  {
    set x | x in inodes && !Reachable(inodes, dents, x)
  }

  lemma ReachableNext(inodes: seq<nat>, dents: Dents, d: nat, x: nat)
    requires Known(inodes, dents) && Reachable(inodes, dents, d) && d in inodes && x in inodes && x in dents[d]
    ensures Reachable(inodes, dents, x)
  {
    var way :| IsWay(inodes, dents, way) && way[|way| - 1] == d;
    assert IsWay(inodes, dents, way + [x]);
  }

  lemma RootReachable(inodes: seq<nat>, dents: Dents)
    requires Known(inodes, dents) && ROOT in inodes
    ensures Reachable(inodes, dents, ROOT)
  {
    assert IsWay(inodes, dents, [ROOT]);
  }

  /** The removed inodes are among those there are, and the root is not. */
  lemma RemovedKnown(inodes: seq<nat>, dents: Dents, removed: set<nat>)
    requires Known(inodes, dents) && LeastClosed(inodes, dents, removed)
    ensures (forall x :: x in removed ==> x in inodes) && ROOT !in removed
  {
    var less := (set x | x in removed && x in inodes) - {ROOT};
    forall y | y in inodes && y != ROOT && OnlyFrom(inodes, dents, less, y) ensures y in less {
      assert OnlyFrom(inodes, dents, removed, y);
    }
    assert Closed(inodes, dents, less);
  }

  lemma {:induction false} WayStays(inodes: seq<nat>, dents: Dents, removed: set<nat>, way: seq<nat>)
    requires Known(inodes, dents) && LeastClosed(inodes, dents, removed) && IsWay(inodes, dents, way)
    ensures way[|way| - 1] !in removed
  {
    var n := |way| - 1;
    if n == 0 {
      RemovedKnown(inodes, dents, removed);
    } else {
      WayStays(inodes, dents, removed, way[..n]);
      NamedStay(inodes, dents, removed, way[n - 1], way[n]);
    }
  }

  /** What a way from the root leads to is never removed. */
  lemma RemovedUnreachable(inodes: seq<nat>, dents: Dents, removed: set<nat>)
    requires Known(inodes, dents) && LeastClosed(inodes, dents, removed)
    ensures removed <= Unreachable(inodes, dents)
  {
    RemovedKnown(inodes, dents, removed);
    forall x | x in removed ensures !Reachable(inodes, dents, x) {
      forall way | IsWay(inodes, dents, way) ensures way[|way| - 1] != x {
        WayStays(inodes, dents, removed, way);
      }
    }
  }

  /** What stays though no way leads to it is named from within. */
  lemma LeftSelfNamed(inodes: seq<nat>, dents: Dents, removed: set<nat>)
    requires Known(inodes, dents) && LeastClosed(inodes, dents, removed)
    ensures SelfNamed(inodes, dents, Unreachable(inodes, dents) - removed)
  {
    var left := Unreachable(inodes, dents) - removed;
    forall x | x in left ensures exists d :: d in inodes && d in left && x in dents[d] {
      if x == ROOT {
        RootReachable(inodes, dents);
      }
      assert !OnlyFrom(inodes, dents, removed, x);
      var d :| d in inodes && x in dents[d] && d !in removed;
      if Reachable(inodes, dents, d) {
        ReachableNext(inodes, dents, d, x);
      }
      assert d in left;
    }
  }

  /**
   * The mount removes exactly the inodes no way from the root leads to if and only if no set of them, other
   * than the empty one, has each of its members named from within.
   */
  lemma RemovedIffUnreachable(inodes: seq<nat>, dents: Dents, removed: set<nat>)
    requires Known(inodes, dents) && LeastClosed(inodes, dents, removed)
    ensures removed == Unreachable(inodes, dents) <==>
            forall cycle :: cycle <= Unreachable(inodes, dents) && SelfNamed(inodes, dents, cycle) ==> cycle == {}
  {
    hide Closed, LeastClosed, SelfNamed, Unreachable;
    RemovedUnreachable(inodes, dents, removed);
    LeftSelfNamed(inodes, dents, removed);
    var left := Unreachable(inodes, dents) - removed;
    if removed == Unreachable(inodes, dents) {
      forall cycle | cycle <= Unreachable(inodes, dents) && SelfNamed(inodes, dents, cycle) ensures cycle == {} {
        CyclesStay(inodes, dents, removed, cycle);
      }
    } else {
      NotAll(Unreachable(inodes, dents), removed);
    }
  }

  lemma NotAll(all: set<nat>, some: set<nat>)
    requires some <= all
    ensures all - some == {} ==> some == all
  {
    if all - some == {} {
      forall x | x in all ensures x in some {
        assert x !in all - some;
      }
    }
  }

  lemma WayBegins(inodes: seq<nat>, dents: Dents, way: seq<nat>)
    requires Known(inodes, dents) && IsWay(inodes, dents, way) && |way| > 1
    ensures Names(dents, ROOT, way[1])
  {
    hide Names;
    assert Names(dents, way[0], way[0 + 1]);
  }

  /** If the root directory is empty, nothing but the root can be reached. */
  lemma EmptyRoot(inodes: seq<nat>, dents: Dents)
    requires Known(inodes, dents) && ROOT in inodes && dents[ROOT] == []
    ensures Unreachable(inodes, dents) == (set x | x in inodes) - {ROOT}
  {
    RootReachable(inodes, dents);
    hide IsWay;
    forall x | Reachable(inodes, dents, x) ensures x == ROOT {
      var way :| IsWay(inodes, dents, way) && way[|way| - 1] == x;
      if |way| > 1 {
        WayBegins(inodes, dents, way);
      }
      WayStarts(inodes, dents, way);
    }
  }

  lemma WayStarts(inodes: seq<nat>, dents: Dents, way: seq<nat>)
    requires Known(inodes, dents) && IsWay(inodes, dents, way)
    ensures |way| > 0 && way[0] == ROOT
  {
  }

  /** The root directory is empty, and two directories name each other. */
  ghost predicate IsCycle(inodes: seq<nat>, dents: Dents) {
    (forall x :: x in inodes <==> x in {1, 2, 3}) && Known(inodes, dents) && dents[1] == [] && dents[2] == [3] &&
    dents[3] == [2]
  }

  lemma CycleExists()
    ensures IsCycle([1, 2, 3], map[1 := [], 2 := [3], 3 := [2]])
  {
  }

  /** Two directories that name each other and that nothing else names: both stay, and no way leads to either. */
  lemma CycleLeft(inodes: seq<nat>, dents: Dents, removed: set<nat>)
    requires IsCycle(inodes, dents) && LeastClosed(inodes, dents, removed)
    ensures removed == {} && Unreachable(inodes, dents) == {2, 3}
  {
    assert SelfNamed(inodes, dents, {2, 3}) by {
      assert 3 in dents[2] && 2 in dents[3];
    }
    hide LeastClosed, Unreachable, SelfNamed;
    EmptyRoot(inodes, dents);
    assert (set x | x in inodes) == {1, 2, 3};
    RemovedKnown(inodes, dents, removed);
    CyclesStay(inodes, dents, removed, {2, 3});
    assert forall x :: x in removed ==> x in {1, 2, 3} && x !in {2, 3};
  }

  // ---------------------------------------------------------------------------------------
  // The passes

  ghost predicate InDomain(inodes: seq<nat>, dents: Dents, nlink: map<nat, nat>) {
    Distinct(inodes) && Known(inodes, dents) && (forall x :: x in inodes <==> x in nlink) && 0 !in inodes
  }

  /** Every count is that of the entries left, one more for the root. */
  ghost predicate Counted(inodes: seq<nat>, dents: Dents, nlink: map<nat, nat>)
    requires Known(inodes, dents)
  {
    forall x :: x in nlink ==> nlink[x] == Links(inodes, dents, x) + (if x == ROOT then 1 else 0)
  }

  /** The lists of the removed inodes are used up, the others are as they were found. */
  ghost predicate UsedUp(inodes: seq<nat>, found: Dents, dents: Dents, removed: set<nat>)
    requires Known(inodes, found) && Known(inodes, dents)
  {
    forall d :: d in inodes ==> dents[d] == if d in removed then [] else found[d]
  }

  /** Whatever is closed has all the inodes removed so far. */
  ghost predicate Justified(inodes: seq<nat>, found: Dents, removed: set<nat>)
    requires Known(inodes, found)
  {
    forall t :: Closed(inodes, found, t) ==> removed <= t
  }

  ghost predicate AllDead(nlink: map<nat, nat>, xs: seq<nat>) {
    forall x :: x in xs ==> x in nlink && nlink[x] == 0
  }

  lemma RemovalJustified(inodes: seq<nat>, found: Dents, dents: Dents, nlink: map<nat, nat>, removed: set<nat>, x: nat)
    requires InDomain(inodes, dents, nlink) && Known(inodes, found) && Counted(inodes, dents, nlink)
    requires UsedUp(inodes, found, dents, removed) && Justified(inodes, found, removed)
    requires x in nlink && nlink[x] == 0
    ensures Justified(inodes, found, removed + {x})
  {
    LinkedIff(inodes, dents, x);
    assert OnlyFrom(inodes, found, removed, x);
    forall t | Closed(inodes, found, t) ensures removed + {x} <= t {
      assert removed <= t;
      assert OnlyFrom(inodes, found, t, x);
    }
  }

  lemma RemovalComplete(inodes: seq<nat>, found: Dents, dents: Dents, nlink: map<nat, nat>, removed: set<nat>)
    requires InDomain(inodes, dents, nlink) && Known(inodes, found) && Counted(inodes, dents, nlink)
    requires UsedUp(inodes, found, dents, removed)
    requires forall x :: x in nlink && nlink[x] == 0 ==> x in removed
    ensures Closed(inodes, found, removed)
  {
    forall x | x in inodes && x != ROOT && OnlyFrom(inodes, found, removed, x) ensures x in removed {
      LinkedIff(inodes, dents, x);
      assert nlink[x] == Links(inodes, dents, x);
    }
  }

  lemma UsedUpMore(inodes: seq<nat>, found: Dents, dents: Dents, removed: set<nat>, x: nat)
    requires Known(inodes, found) && Known(inodes, dents) && UsedUp(inodes, found, dents, removed)
    ensures Known(inodes, dents[x := []]) && UsedUp(inodes, found, dents[x := []], removed + {x})
  {
  }

  class Builder {
    /** All inode caches, in the order for_each_inode visits them. */
    const inodes: seq<nat>
    var dents: Dents
    var nlink: map<nat, nat>
    /** The inodes named by the entries on the dead_fds list, first to last. */
    var deadFds: seq<nat>
    /** The inodes all of whose nodes were marked obsolete. */
    var removed: set<nat>
    ghost const found: Dents

    /** After a scan: no link counted yet but the one the root has from itself. */
    constructor (inodes: seq<nat>, dents: Dents)
      requires Distinct(inodes) && Known(inodes, dents) && 0 !in inodes
      ensures this.inodes == inodes && this.dents == dents && found == dents
      ensures InDomain(inodes, dents, nlink) && (forall x :: x in nlink ==> nlink[x] == if x == ROOT then 1 else 0)
      ensures deadFds == [] && removed == {}
    {
      this.inodes := inodes;
      this.dents, this.found := dents, dents;
      nlink := map x | x in inodes :: if x == ROOT then 1 else 0;
      deadFds, removed := [], {};
    }

    ghost predicate Valid()
      reads this
    {
      InDomain(inodes, dents, nlink) && Known(inodes, found) && Counted(inodes, dents, nlink) &&
      UsedUp(inodes, found, dents, removed) && Justified(inodes, found, removed) &&
      AllDead(nlink, deadFds) && forall x :: x in removed ==> x in nlink && nlink[x] == 0
    }

    /** Pass 1 of one inode: its entries are counted where the inode they name exists. */
    method BuildInodePass1(ic: nat, ghost done: seq<nat>)
      requires InDomain(inodes, dents, nlink) && ic in inodes && Known(done + [ic], dents)
      requires forall x :: x in nlink ==> nlink[x] == Links(done, dents, x) + if x == ROOT then 1 else 0
      modifies this`nlink
      ensures InDomain(inodes, dents, nlink)
      ensures forall x :: x in nlink ==> nlink[x] == Links(done + [ic], dents, x) + if x == ROOT then 1 else 0
    {
      var list, i := dents[ic], 0;
      assert list[..0] == [];
      while i < |list|
        invariant i <= |list| && InDomain(inodes, dents, nlink)
        invariant forall x :: x in nlink ==>
                  nlink[x] == Links(done, dents, x) + Occurrences(list[..i], x) + if x == ROOT then 1 else 0
      {
        var ino := list[i];
        assert list[..i + 1] == list[..i] + [ino];
        forall x ensures Occurrences(list[..i + 1], x) == Occurrences(list[..i], x) + if x == ino then 1 else 0 {
          OccurrencesSplit(list[..i], [ino], x);
        }
        if ino != 0 && ino in nlink {
          nlink := nlink[ino := nlink[ino] + 1];
        }
        i := i + 1;
      }
      assert list[..i] == list;
      forall x ensures Links(done + [ic], dents, x) == Links(done, dents, x) + Occurrences(list, x) {
        LinksSplit(done, [ic], dents, x);
      }
    }

    method Pass1()
      requires InDomain(inodes, dents, nlink) && forall x :: x in nlink ==> nlink[x] == if x == ROOT then 1 else 0
      modifies this`nlink
      ensures InDomain(inodes, dents, nlink) && Counted(inodes, dents, nlink)
    {
      var i := 0;
      while i < |inodes|
        invariant i <= |inodes| && InDomain(inodes, dents, nlink) && Known(inodes[..i], dents)
        invariant forall x :: x in nlink ==> nlink[x] == Links(inodes[..i], dents, x) + if x == ROOT then 1 else 0
      {
        assert inodes[..i + 1] == inodes[..i] + [inodes[i]];
        if dents[inodes[i]] != [] {
          BuildInodePass1(inodes[i], inodes[..i]);
        } else {
          forall x ensures Links(inodes[..i + 1], dents, x) == Links(inodes[..i], dents, x) {
            LinksSplit(inodes[..i], [inodes[i]], dents, x);
          }
        }
        i := i + 1;
      }
      assert inodes[..i] == inodes;
    }

    /** Takes the first entry off the list of a dead inode and its link from the count. */
    method DropEntry(ic: nat)
      requires InDomain(inodes, dents, nlink) && Counted(inodes, dents, nlink) && AllDead(nlink, deadFds)
      requires ic in inodes && dents[ic] != []
      modifies this`dents, this`nlink, this`deadFds
      ensures InDomain(inodes, dents, nlink) && Counted(inodes, dents, nlink) && AllDead(nlink, deadFds)
      ensures dents == old(dents)[ic := old(dents)[ic][1..]]
      ensures 2 * Entries(inodes, dents) + |deadFds| < 2 * old(Entries(inodes, dents)) + old(|deadFds|)
      ensures forall x :: x in nlink ==> nlink[x] <= old(nlink)[x]
      ensures forall x :: x in nlink && nlink[x] == 0 && old(nlink)[x] > 0 ==> x in deadFds
      ensures forall x :: x in old(deadFds) ==> x in deadFds
    {
      var ino := dents[ic][0];
      ghost var was := dents;
      forall x ensures Links(inodes, was, x) == Links(inodes, was[ic := was[ic][1..]], x) + if x == ino then 1 else 0 {
        LinksChange(inodes, was, ic, was[ic][1..], x);
      }
      LinksChange(inodes, was, ic, was[ic][1..], 0);
      dents := dents[ic := dents[ic][1..]];
      if ino == 0 {
        return;
      }
      if ino !in nlink {
        return;
      }
      nlink := nlink[ino := nlink[ino] - 1];
      if nlink[ino] == 0 {
        deadFds := [ino] + deadFds;
      }
    }

    /** Removes an inode without links: its nodes become obsolete and its entries stop counting. */
    method RemoveUnlinkedInode(ic: nat)
      requires Valid() && ic in nlink && nlink[ic] == 0
      modifies this
      ensures Valid() && removed == old(removed) + {ic}
      ensures 2 * Entries(inodes, dents) + |deadFds| <= 2 * old(Entries(inodes, dents)) + old(|deadFds|)
      ensures forall x :: x in nlink && nlink[x] == 0 && old(nlink)[x] > 0 ==> x in deadFds
      ensures forall x :: x in nlink ==> nlink[x] <= old(nlink)[x]
      ensures forall x :: x in old(deadFds) ==> x in deadFds
    {
      hide Justified, Links, Entries, Occurrences, Closed;
      RemovalJustified(inodes, found, dents, nlink, removed, ic);
      UsedUpMore(inodes, found, dents, removed, ic);
      removed := removed + {ic};
      DropEntries(ic);
    }

    method DropEntries(ic: nat)
      requires InDomain(inodes, dents, nlink) && Counted(inodes, dents, nlink) && AllDead(nlink, deadFds) &&
               ic in inodes
      modifies this`dents, this`nlink, this`deadFds
      ensures InDomain(inodes, dents, nlink) && Counted(inodes, dents, nlink) && AllDead(nlink, deadFds)
      ensures dents == old(dents)[ic := []]
      ensures 2 * Entries(inodes, dents) + |deadFds| <= 2 * old(Entries(inodes, dents)) + old(|deadFds|)
      ensures forall x :: x in nlink ==> nlink[x] <= old(nlink)[x]
      ensures forall x :: x in nlink && nlink[x] == 0 && old(nlink)[x] > 0 ==> x in deadFds
      ensures forall x :: x in old(deadFds) ==> x in deadFds
    {
      hide Links, Entries, Occurrences, Counted;
      while dents[ic] != []
        invariant InDomain(inodes, dents, nlink) && Counted(inodes, dents, nlink) && AllDead(nlink, deadFds)
        invariant dents == old(dents)[ic := dents[ic]]
        invariant 2 * Entries(inodes, dents) + |deadFds| <= 2 * old(Entries(inodes, dents)) + old(|deadFds|)
        invariant forall x :: x in nlink ==> nlink[x] <= old(nlink)[x]
        invariant forall x :: x in nlink && nlink[x] == 0 && old(nlink)[x] > 0 ==> x in deadFds
        invariant forall x :: x in old(deadFds) ==> x in deadFds
        decreases |dents[ic]|
      {
        DropEntry(ic);
      }
    }

    /** Every inode without links was removed, or waits in the rest of the pass or on the list. */
    ghost predicate Pending(rest: seq<nat>)
      reads this
    {
      forall x :: x in nlink && nlink[x] == 0 && x !in removed ==> x in deadFds || x in rest
    }

    method Pass2()
      requires Valid()
      modifies this
      ensures Valid() && Pending([])
    {
      hide Counted, UsedUp, Justified, Links, Entries;
      var i := 0;
      while i < |inodes|
        invariant i <= |inodes| && Valid() && Pending(inodes[i..])
      {
        assert inodes[i..] == [inodes[i]] + inodes[i + 1..];
        if nlink[inodes[i]] == 0 {
          RemoveUnlinkedInode(inodes[i]);
        }
        i := i + 1;
      }
    }

    /** The worklist: an inode may be visited again, but ends empty-handed. */
    method Pass2a()
      requires Valid() && Pending([])
      modifies this
      ensures Valid() && deadFds == [] && Pending([])
    {
      hide Counted, UsedUp, Justified, Links, Entries;
      while deadFds != []
        invariant Valid() && Pending([])
        decreases 2 * Entries(inodes, dents) + |deadFds|
      {
        var ino := deadFds[0];
        assert deadFds == [ino] + deadFds[1..];
        deadFds := deadFds[1..];
        RemoveUnlinkedInode(ino);
      }
    }

    /** The passes of jffs2_build_filesystem that decide which inodes live, and with how many links. */
    method BuildFilesystem()
      requires InDomain(inodes, dents, nlink) && (forall x :: x in nlink ==> nlink[x] == if x == ROOT then 1 else 0)
      requires found == dents && deadFds == [] && removed == {}
      modifies this
      ensures Known(inodes, found) && LeastClosed(inodes, found, removed)
      ensures InDomain(inodes, dents, nlink) && Counted(inodes, dents, nlink) && UsedUp(inodes, found, dents, removed)
      ensures forall x :: x in inodes ==> (nlink[x] == 0 <==> x in removed)
    {
      Pass1();
      Pass2();
      Pass2a();
      RemovalComplete(inodes, found, dents, nlink, removed);
    }
  }

  /** What a mount makes of the scanned entries: the inodes it drops and the link counts of all. */
  method Mount(inodes: seq<nat>, dents: Dents) returns (removed: set<nat>, nlink: map<nat, nat>)
    requires Distinct(inodes) && Known(inodes, dents) && 0 !in inodes
    ensures LeastClosed(inodes, dents, removed) && removed <= Unreachable(inodes, dents)
    ensures forall x :: x in inodes ==> x in nlink && (nlink[x] == 0 <==> x in removed)
    ensures forall x :: x in inodes ==>
              exists left: Dents :: Known(inodes, left) && UsedUp(inodes, dents, left, removed) &&
                                    nlink[x] == Links(inodes, left, x) + if x == ROOT then 1 else 0
  {
    var b := new Builder(inodes, dents);
    b.BuildFilesystem();
    removed, nlink := b.removed, b.nlink;
    assert Known(inodes, b.dents) && UsedUp(inodes, dents, b.dents, removed);
    RemovedUnreachable(inodes, dents, removed);
  }
}
