/**
 * Directories of dummyfs (dummyfs/dir.c, dummyfs_readdirNext of dummyfs/dummyfs.c).
 *
 * Entries hang in two structures: chains of entries with the same hash of the name, their heads in
 * a tree, and one list of all entries in the order of their positions.  A hint remembers where
 * the last listing stopped.  Lookups through the chains agree with a plain map of names, and a
 * listing that starts at the hint returns what one from the head of the list would.
 */
module DummyDir {
  const EOK: int := 0
  const ENOENT: int := 2
  const EEXIST: int := 17
  const ENAMETOOLONG: int := 36
  const NAME_MAX: nat := 255
  const UINT16_MAX: nat := 0xffff
  const U32_SIZE: nat := 0x1_0000_0000

  /** A pointer to an entry; entries are told apart by their positions, which are never used again. */
  datatype Link = Nil | To(id: nat)

  datatype Dirent = Dirent(key: nat, prev: Link, next: Link, name: string, oid: nat, kind: nat)

  function Shifted(c: char, i: nat): nat
    decreases i
  {
    if i == 0 then c as int else 2 * Shifted(c, i - 1)
  }

  /** dummyfs_dir_hash: a 32-bit sum of the characters, each shifted by its place modulo 16. */
  function HashFrom(name: string, i: nat, key: nat): nat
    requires i <= |name|
    decreases |name| - i
  {
    if i == |name| then key else HashFrom(name, i + 1, (key + Shifted(name[i], i % 16)) % U32_SIZE)
  }

  function Hash(name: string): nat {
    HashFrom(name, 0, 0)
  }

  /** The path up to its first slash: the name that is looked up. */
  function Component(path: string): string {
    if path == "" || path[0] == '/' then "" else [path[0]] + Component(path[1..])
  }

  lemma {:induction false} ComponentWhole(name: string)
    requires '/' !in name
    ensures Component(name) == name
  {
    if name != "" {
      assert forall c :: c in name[1..] ==> c in name;
      ComponentWhole(name[1..]);
    }
  }

  type Entries = map<nat, Dirent>

  // ---------------------------------------------------------------------------------------
  // The structures

  ghost function PrevIn(c: seq<nat>, i: nat): Link
    requires i < |c|
  {
    if i == 0 then Nil else To(c[i - 1])
  }

  ghost function NextIn(c: seq<nat>, i: nat): Link
    requires i < |c|
  {
    if i + 1 == |c| then Nil else To(c[i + 1])
  }

  ghost predicate Distinct(c: seq<nat>) {
    forall i, j :: 0 <= i < j < |c| ==> c[i] != c[j]
  }

  /** Entry i of a chain is linked to its neighbours and hashes to the chain's key. */
  ghost predicate LinkOk(ents: Entries, key: nat, c: seq<nat>, i: nat)
    requires i < |c|
  {
    c[i] in ents && ents[c[i]].prev == PrevIn(c, i) && ents[c[i]].next == NextIn(c, i) && ents[c[i]].key == key
  }

  ghost predicate ChainOk(ents: Entries, key: nat, c: seq<nat>) {
    0 < |c| && Distinct(c) && forall i :: 0 <= i < |c| ==> LinkOk(ents, key, c, i)
  }

  ghost predicate ChainsOk(ents: Entries, tree: map<nat, nat>, chains: map<nat, seq<nat>>) {
    tree.Keys == chains.Keys &&
    (forall k :: k in chains ==> ChainOk(ents, k, chains[k]) && tree[k] == chains[k][0]) &&
    forall id :: id in ents ==>
        ents[id].key == Hash(ents[id].name) && ents[id].key in chains && id in chains[ents[id].key]
  }

  ghost predicate Unique(ents: Entries) {
    forall a, b :: a in ents && b in ents && ents[a].name == ents[b].name ==> a == b
  }

  ghost predicate Rising(list: seq<nat>) {
    forall i, j :: 0 <= i < j < |list| ==> list[i] < list[j]
  }

  ghost predicate ListOk(ents: Entries, list: seq<nat>, nextPos: nat) {
    Rising(list) && (forall id :: id in list <==> id in ents) && forall id :: id in list ==> id < nextPos
  }

  /** Whatever is before the hinted entry is before the hinted position too. */
  ghost predicate HintOk(list: seq<nat>, hint: Link, offs: nat) {
    hint.To? ==> hint.id in list && forall id :: id in list && id < hint.id ==> id < offs
  }

  /** The directory as its users see it: a name and an object at each position. */
  ghost function View(ents: Entries): map<nat, (string, nat, nat)> {
    map id | id in ents :: (ents[id].name, ents[id].oid, ents[id].kind)
  }

  // ---------------------------------------------------------------------------------------
  // Changes of the chains

  /** Chains of other keys do not share entries with this one. */
  lemma OtherChain(ents: Entries, k: nat, c: seq<nat>, i: nat, id: nat)
    requires ChainOk(ents, k, c) && i < |c| && id in ents && ents[id].key != k
    ensures c[i] != id
  {
    assert LinkOk(ents, k, c, i);
  }

  /** An entry at the end of a chain. */
  function Linked(ents: Entries, last: Link, id: nat, e: Dirent): Entries
    requires last.To? ==> last.id in ents
  {
    (if last.Nil? then ents else ents[last.id := ents[last.id].(next := To(id))])[id := e]
  }

  ghost function ChainEnd(c: seq<nat>): Link {
    if c == [] then Nil else To(c[|c| - 1])
  }

  ghost function ChainAt(chains: map<nat, seq<nat>>, key: nat): seq<nat> {
    if key in chains then chains[key] else []
  }

  lemma LinkChain(ents: Entries, key: nat, c: seq<nat>, id: nat, e: Dirent)
    requires (c == [] || ChainOk(ents, key, c)) && id !in ents && e.key == key && e.prev == ChainEnd(c) && e.next == Nil
    ensures (c != [] ==> c[|c| - 1] in ents) && ChainOk(Linked(ents, ChainEnd(c), id, e), key, c + [id])
  {
    var d := c + [id];
    if c != [] {
      assert LinkOk(ents, key, c, |c| - 1);
    }
    var now := Linked(ents, ChainEnd(c), id, e);
    forall i | 0 <= i < |d| ensures LinkOk(now, key, d, i) {
      if i < |c| {
        assert LinkOk(ents, key, c, i);
      }
    }
    forall i, j | 0 <= i < j < |d| ensures d[i] != d[j] {
      if i < |c| {
        assert LinkOk(ents, key, c, i);
      }
    }
  }

  lemma LinkOthers(ents: Entries, key: nat, c: seq<nat>, id: nat, e: Dirent, k: nat, d: seq<nat>)
    requires (c == [] || ChainOk(ents, key, c)) && id !in ents && ChainOk(ents, k, d) && k != key
    ensures (c != [] ==> c[|c| - 1] in ents) && ChainOk(Linked(ents, ChainEnd(c), id, e), k, d)
  {
    if c != [] {
      assert LinkOk(ents, key, c, |c| - 1);
    }
    var now := Linked(ents, ChainEnd(c), id, e);
    forall i | 0 <= i < |d| ensures LinkOk(now, k, d, i) {
      assert LinkOk(ents, k, d, i);
      if c != [] {
        OtherChain(ents, k, d, i, c[|c| - 1]);
      }
    }
  }

  lemma LinkKeeps(ents: Entries, tree: map<nat, nat>, chains: map<nat, seq<nat>>, id: nat, e: Dirent)
    requires ChainsOk(ents, tree, chains) && id !in ents && e.key == Hash(e.name) &&
             e.prev == ChainEnd(ChainAt(chains, e.key)) && e.next == Nil
    ensures e.prev.To? ==> e.prev.id in ents
    ensures var now := Linked(ents, e.prev, id, e);
            ChainsOk(now, if e.prev.Nil? then tree[e.key := id] else tree,
                     chains[e.key := ChainAt(chains, e.key) + [id]]) &&
            View(now) == View(ents)[id := (e.name, e.oid, e.kind)]
  {
    hide Hash, LinkOk, Linked, View;
    var c := ChainAt(chains, e.key);
    LinkChain(ents, e.key, c, id, e);
    var now, more := Linked(ents, e.prev, id, e), chains[e.key := c + [id]];
    forall k | k in more && k != e.key ensures ChainOk(now, k, more[k]) {
      LinkOthers(ents, e.key, c, id, e, k, chains[k]);
    }
    LinkView(ents, e.prev, id, e);
    hide ChainOk;
    forall x | x in now ensures now[x].key == Hash(now[x].name) && now[x].key in more && x in more[now[x].key] {
      if x != id {
        assert x in chains[ents[x].key];
      }
    }
  }

  lemma LinkView(ents: Entries, last: Link, id: nat, e: Dirent)
    requires last.To? ==> last.id in ents && last.id != id
    ensures var now := Linked(ents, last, id, e);
            now.Keys == ents.Keys + {id} && now[id] == e && View(now) == View(ents)[id := (e.name, e.oid, e.kind)] &&
            forall x :: x in ents && x != id ==> now[x].key == ents[x].key && now[x].name == ents[x].name
  {
  }

  /** An entry is taken out of its chain: its neighbours are linked to each other. */
  function Unlinked(ents: Entries, id: nat): Entries
    requires id in ents && (ents[id].prev.To? ==> ents[id].prev.id in ents) &&
             (ents[id].next.To? ==> ents[id].next.id in ents)
  {
    var e := ents[id];
    var one := if e.prev.Nil? then ents else ents[e.prev.id := ents[e.prev.id].(next := e.next)];
    var two := if e.next.Nil? then one else one[e.next.id := one[e.next.id].(prev := e.prev)];
    two - {id}
  }

  function NewHead(tree: map<nat, nat>, e: Dirent): map<nat, nat> {
    if e.prev.To? then tree else if e.next.To? then tree[e.key := e.next.id] else tree - {e.key}
  }

  ghost function Without(c: seq<nat>, i: nat): seq<nat>
    requires i < |c|
  {
    c[..i] + c[i + 1..]
  }

  lemma Neighbours(ents: Entries, key: nat, c: seq<nat>, i: nat)
    requires ChainOk(ents, key, c) && i < |c|
    ensures c[i] in ents
    ensures var e := ents[c[i]];
            e.key == key && e.prev == PrevIn(c, i) && e.next == NextIn(c, i) &&
            (e.prev.To? ==> e.prev.id in ents && e.prev.id != c[i]) &&
            (e.next.To? ==> e.next.id in ents && e.next.id != c[i] && e.next != e.prev)
  {
    assert LinkOk(ents, key, c, i);
    if i > 0 {
      assert LinkOk(ents, key, c, i - 1);
    }
    if i + 1 < |c| {
      assert LinkOk(ents, key, c, i + 1);
    }
  }

  lemma UnlinkChain(ents: Entries, key: nat, c: seq<nat>, i: nat)
    requires ChainOk(ents, key, c) && i < |c| && |c| > 1 && c[i] in ents
    requires var e := ents[c[i]]; (e.prev.To? ==> e.prev.id in ents) && (e.next.To? ==> e.next.id in ents)
    ensures ChainOk(Unlinked(ents, c[i]), key, Without(c, i))
  {
    Neighbours(ents, key, c, i);
    var d, now := Without(c, i), Unlinked(ents, c[i]);
    forall j | 0 <= j < |d| ensures LinkOk(now, key, d, j) {
      var k := if j < i then j else j + 1;
      assert d[j] == c[k] && LinkOk(ents, key, c, k);
      assert c[k] != c[i];
    }
  }

  lemma UnlinkOthers(ents: Entries, key: nat, c: seq<nat>, i: nat, k: nat, d: seq<nat>)
    requires ChainOk(ents, key, c) && i < |c| && ChainOk(ents, k, d) && k != key && c[i] in ents
    requires var e := ents[c[i]]; (e.prev.To? ==> e.prev.id in ents) && (e.next.To? ==> e.next.id in ents)
    ensures ChainOk(Unlinked(ents, c[i]), k, d)
  {
    Neighbours(ents, key, c, i);
    var now := Unlinked(ents, c[i]);
    forall j | 0 <= j < |d| ensures LinkOk(now, k, d, j) {
      assert LinkOk(ents, k, d, j);
      OtherChain(ents, k, d, j, c[i]);
      if i > 0 {
        Neighbours(ents, key, c, i - 1);
      }
      if i + 1 < |c| {
        Neighbours(ents, key, c, i + 1);
      }
    }
  }

  lemma UnlinkView(ents: Entries, id: nat)
    requires id in ents && (ents[id].prev.To? ==> ents[id].prev.id in ents) &&
             (ents[id].next.To? ==> ents[id].next.id in ents)
    ensures Unlinked(ents, id).Keys == ents.Keys - {id} && View(Unlinked(ents, id)) == View(ents) - {id}
    ensures forall x :: x in Unlinked(ents, id) ==>
            Unlinked(ents, id)[x].key == ents[x].key && Unlinked(ents, id)[x].name == ents[x].name
  {
  }

  ghost function LessChain(chains: map<nat, seq<nat>>, key: nat, i: nat): map<nat, seq<nat>>
    requires key in chains && i < |chains[key]|
  {
    if |chains[key]| == 1 then chains - {key} else chains[key := Without(chains[key], i)]
  }

  lemma UnlinkKeeps(ents: Entries, tree: map<nat, nat>, chains: map<nat, seq<nat>>, key: nat, i: nat)
    requires ChainsOk(ents, tree, chains) && key in chains && i < |chains[key]|
    ensures var id := chains[key][i];
            id in ents && (ents[id].prev.To? ==> ents[id].prev.id in ents) &&
            (ents[id].next.To? ==> ents[id].next.id in ents) && ents[id].key == key &&
            ChainsOk(Unlinked(ents, id), NewHead(tree, ents[id]), LessChain(chains, key, i))
  {
    hide Hash, LinkOk;
    var c := chains[key];
    var id := c[i];
    Neighbours(ents, key, c, i);
    UnlinkView(ents, id);
    var now, less := Unlinked(ents, id), LessChain(chains, key, i);
    hide Unlinked;
    if |c| > 1 {
      UnlinkChain(ents, key, c, i);
    }
    forall k | k in less && k != key ensures ChainOk(now, k, less[k]) {
      UnlinkOthers(ents, key, c, i, k, chains[k]);
    }
    forall x | x in now ensures now[x].key == Hash(now[x].name) && now[x].key in less && x in less[now[x].key] {
      StillChained(chains, key, i, ents[x].key, x);
    }
    UnlinkHeads(tree, chains, key, i, ents[id]);
  }

  lemma StillChained(chains: map<nat, seq<nat>>, key: nat, i: nat, k: nat, x: nat)
    requires key in chains && i < |chains[key]| && k in chains && x in chains[k] && x != chains[key][i]
    ensures k in LessChain(chains, key, i) && x in LessChain(chains, key, i)[k]
  {
    if k == key {
      var c := chains[key];
      var j :| 0 <= j < |c| && c[j] == x;
      assert Without(c, i)[if j < i then j else j - 1] == x;
    }
  }

  lemma UnlinkHeads(tree: map<nat, nat>, chains: map<nat, seq<nat>>, key: nat, i: nat, e: Dirent)
    requires tree.Keys == chains.Keys && key in chains && i < |chains[key]| && e.key == key &&
             e.prev == PrevIn(chains[key], i) && e.next == NextIn(chains[key], i)
    requires forall k :: k in chains ==> 0 < |chains[k]| && tree[k] == chains[k][0]
    ensures var t, less := NewHead(tree, e), LessChain(chains, key, i);
            t.Keys == less.Keys && forall k :: k in less ==> 0 < |less[k]| && t[k] == less[k][0]
  {
  }

  // ---------------------------------------------------------------------------------------
  // The directory

  /** The first entry of the position list at or after a position. */
  ghost function FirstFrom(list: seq<nat>, offs: nat): Link {
    if list == [] then Nil else if list[0] >= offs then To(list[0]) else FirstFrom(list[1..], offs)
  }

  lemma {:induction false} FirstFromAt(list: seq<nat>, offs: nat, i: nat)
    requires i <= |list| && (forall j :: 0 <= j < i ==> list[j] < offs) && (i < |list| ==> list[i] >= offs)
    ensures FirstFrom(list, offs) == if i < |list| then To(list[i]) else Nil
  {
    if i > 0 {
      assert list[1..][i - 1..] == list[i..];
      FirstFromAt(list[1..], offs, i - 1);
    }
  }

  ghost function IndexIn(list: seq<nat>, id: nat): (i: nat)
    requires id in list
    ensures i < |list| && list[i] == id
  {
    if list[0] == id then 0 else 1 + IndexIn(list[1..], id)
  }

  ghost predicate DirOk(ents: Entries, tree: map<nat, nat>, chains: map<nat, seq<nat>>, list: seq<nat>, nextPos: nat,
                        entries: nat, hint: Link, offs: nat) {
    ChainsOk(ents, tree, chains) && Unique(ents) && ListOk(ents, list, nextPos) && entries == |list| &&
    HintOk(list, hint, offs)
  }

  lemma AddKeeps(ents: Entries, tree: map<nat, nat>, chains: map<nat, seq<nat>>, list: seq<nat>, nextPos: nat,
                 entries: nat, hint: Link, offs: nat, n: Dirent)
    requires DirOk(ents, tree, chains, list, nextPos, entries, hint, offs)
    requires n.key == Hash(n.name) && n.prev == ChainEnd(ChainAt(chains, n.key)) && n.next == Nil &&
             forall id :: id in ents ==> ents[id].name != n.name
    ensures n.prev.To? ==> n.prev.id in ents
    ensures DirOk(Linked(ents, n.prev, nextPos, n), if n.prev.Nil? then tree[n.key := nextPos] else tree,
                  chains[n.key := ChainAt(chains, n.key) + [nextPos]], list + [nextPos], nextPos + 1, entries + 1,
                    Nil, offs)
    ensures View(Linked(ents, n.prev, nextPos, n)) == View(ents)[nextPos := (n.name, n.oid, n.kind)]
  {
    hide Hash, ChainsOk, Linked, View;
    NotThere(ents, list, nextPos);
    LinkKeeps(ents, tree, chains, nextPos, n);
    LinkView(ents, n.prev, nextPos, n);
    AddListed(ents, list, nextPos, Linked(ents, n.prev, nextPos, n));
    AddUnique(ents, nextPos, Linked(ents, n.prev, nextPos, n));
  }

  /** Where a chain has an entry. */
  ghost function ChainPlace(ents: Entries, chains: map<nat, seq<nat>>, id: nat): (i: nat)
    requires id in ents && ents[id].key in chains && id in chains[ents[id].key]
    ensures i < |chains[ents[id].key]| && chains[ents[id].key][i] == id
  {
    IndexIn(chains[ents[id].key], id)
  }

  ghost predicate LessOne(less: seq<nat>, list: seq<nat>, id: nat) {
    forall x :: x in less <==> x in list && x != id
  }

  lemma RemoveKeeps(ents: Entries, tree: map<nat, nat>, chains: map<nat, seq<nat>>, list: seq<nat>, nextPos: nat,
                    entries: nat, hint: Link, offs: nat, i: nat)
    requires DirOk(ents, tree, chains, list, nextPos, entries, hint, offs) && i < |list|
    ensures list[i] in ents && ents[list[i]].key in chains && list[i] in chains[ents[list[i]].key] && entries > 0
    ensures var e := ents[list[i]]; (e.prev.To? ==> e.prev.id in ents) && (e.next.To? ==> e.next.id in ents)
    ensures DirOk(Unlinked(ents, list[i]), NewHead(tree, ents[list[i]]),
            LessChain(chains, ents[list[i]].key, ChainPlace(ents, chains, list[i])),
                  list[..i] + list[i + 1..], nextPos, entries - 1,
                  if hint == To(list[i]) then if i + 1 < |list| then To(list[i + 1]) else Nil else hint, offs)
    ensures View(Unlinked(ents, list[i])) == View(ents) - {list[i]} && LessOne(list[..i] + list[i + 1..], list, list[i])
  {
    hide Hash, LinkOk, View, NewHead, LessChain;
    var id := list[i];
    assert id in list && id in ents && id in chains[ents[id].key];
    UnlinkKeeps(ents, tree, chains, ents[id].key, ChainPlace(ents, chains, id));
    hide ChainsOk;
    UnlinkView(ents, id);
    hide Unlinked;
    UniqueLess(ents, Unlinked(ents, id));
    RemoveListed(ents, list, nextPos, i, Unlinked(ents, id));
    HintMoves(list, hint, offs, i);
  }

  class Directory {
    var ents: Entries
    /** The heads of the chains, by key. */
    var tree: map<nat, nat>
    var list: seq<nat>
    var nextPos: nat
    var entries: nat
    var hintOffs: nat
    var hintEntry: Link
    ghost var chains: map<nat, seq<nat>>

    ghost predicate Valid()
      reads this
    {
      DirOk(ents, tree, chains, list, nextPos, entries, hintEntry, hintOffs)
    }

    constructor ()
      ensures Valid() && ents == map[] && nextPos == 0
    {
      ents, tree, list, nextPos, entries := map[], map[], [], 0, 0;
      hintOffs, hintEntry, chains := 0, Nil, map[];
    }

    /** dummyfs_dir_get: the entry of a name, found through the chain of its hash; the last one looked at otherwise. */
    method Search(name: string) returns (e: Link, last: Link)
      requires Valid()
      ensures match e
              case To(id) => id in ents && ents[id].name == name
              case Nil => forall id :: id in ents ==> ents[id].name != name
      ensures e.Nil? ==> last == ChainEnd(ChainAt(chains, Hash(name)))
    {
      hide Hash, Unique, ListOk, HintOk;
      var key := Hash(name);
      e := if key in tree then To(tree[key]) else Nil;
      last := Nil;
      ghost var c, i := ChainAt(chains, key), 0;
      while e.To?
        invariant i <= |c| && e == (if i < |c| then To(c[i]) else Nil) && last == (if i == 0 then Nil else To(c[i - 1]))
        invariant forall j :: 0 <= j < i ==> c[j] in ents && ents[c[j]].name != name
        decreases |c| - i
      {
        assert LinkOk(ents, key, c, i);
        if ents[e.id].name == name {
          return;
        }
        last := e;
        e := ents[e.id].next;
        i := i + 1;
      }
      forall id | id in ents ensures ents[id].name != name {
        assert ents[id].key == Hash(ents[id].name) && ents[id].key in chains && id in chains[ents[id].key];
      }
    }

    method Get(path: string) returns (e: Link)
      requires Valid()
      ensures match e
              case To(id) => id in ents && ents[id].name == Component(path)
              case Nil => forall id :: id in ents ==> ents[id].name != Component(path)
    {
      var last;
      e, last := Search(Component(path));
    }

    /** dummyfs_dir_add: the new entry comes last, in its chain and in the list. */
    method Add(name: string, oid: nat, kind: nat) returns (err: int)
      requires Valid()
      modifies this
      ensures Valid()
      ensures err == if |name| > NAME_MAX then -ENAMETOOLONG
                     else if exists id :: id in old(ents) && old(ents)[id].name == name then -EEXIST
                     else EOK
      ensures err != EOK ==> View(ents) == old(View(ents)) && list == old(list)
      ensures err == EOK ==>
              View(ents) == old(View(ents))[old(nextPos) := (name, oid, kind)] && list == old(list) + [old(nextPos)]
      ensures nextPos == old(nextPos) + if err == EOK then 1 else 0
    {
      hide Hash, DirOk, Linked, View;
      if |name| > NAME_MAX {
        return -ENAMETOOLONG;
      }
      var e, last := Search(name);
      if e.To? {
        return -EEXIST;
      }
      var n := Dirent(Hash(name), last, Nil, name, oid, kind);
      AddKeeps(ents, tree, chains, list, nextPos, entries, hintEntry, hintOffs, n);
      chains := chains[n.key := ChainAt(chains, n.key) + [nextPos]];
      ents, tree, list, nextPos, entries, hintEntry := Linked(ents, last, nextPos, n),
        if last.Nil? then tree[n.key := nextPos] else tree, list + [nextPos], nextPos + 1, entries + 1, Nil;
      err := EOK;
    }

    /** dummyfs_dir_remove: the entry leaves its chain, even as its head, and the list; the hint moves on. */
    method Remove(path: string) returns (err: int, ghost id: nat)
      requires Valid()
      modifies this
      ensures Valid() && nextPos == old(nextPos)
      ensures err == if exists x :: x in old(ents) && old(ents)[x].name == Component(path) then EOK else -ENOENT
      ensures err != EOK ==> View(ents) == old(View(ents)) && list == old(list)
      ensures err == EOK ==>
              id in old(ents) && old(ents)[id].name == Component(path) && View(ents) == old(View(ents)) - {id}
      ensures err == EOK ==> LessOne(list, old(list), id)
    {
      hide Hash, ChainsOk;
      id := 0;
      var e := Get(path);
      if e.Nil? {
        return -ENOENT, id;
      }
      id := e.id;
      RemoveEntry(e.id);
      err := EOK;
    }

    method RemoveEntry(id: nat)
      requires Valid() && id in ents
      modifies this
      ensures Valid() && nextPos == old(nextPos) && View(ents) == old(View(ents)) - {id} && LessOne(list, old(list), id)
    {
      hide DirOk, Unlinked, View, NewHead, LessChain, ChainPlace, LessOne;
      var i := Position(id);
      RemoveKeeps(ents, tree, chains, list, nextPos, entries, hintEntry, hintOffs, i);
      ghost var key, at := ents[id].key, ChainPlace(ents, chains, id);
      chains := LessChain(chains, key, at);
      ents, tree, list, entries, hintEntry := Unlinked(ents, id), NewHead(tree, ents[id]), list[..i] + list[i + 1..],
        entries - 1,
        if hintEntry == To(id) then if i + 1 < |list| then To(list[i + 1]) else Nil else hintEntry;
    }

    /** Where an entry is in the list; it is linked there directly. */
    method Position(id: nat) returns (i: nat)
      requires Valid() && id in ents
      ensures i < |list| && list[i] == id
    {
      i := 0;
      while list[i] != id
        invariant i < |list| && id in list[i..]
        decreases |list| - i
      {
        assert list[i..] == [list[i]] + list[i + 1..];
        i := i + 1;
      }
    }

    /** dummyfs_readdirNext: the first entry at or after a position, wherever the hint made the search start. */
    method ReaddirNext(offs: nat) returns (err: int, e: Link, next: nat, reclen: nat)
      requires Valid()
      modifies this`hintOffs, this`hintEntry
      ensures Valid() && e == FirstFrom(list, offs)
      ensures err == if e.To? then EOK else -ENOENT
      ensures e.To? ==> next == e.id + 1 && e.id >= offs && Reclen(offs, next, reclen)
      ensures e.Nil? ==> hintOffs == old(hintOffs) && hintEntry == old(hintEntry)
    {
      hide Hash, ChainsOk, Unique, FirstFrom;
      var i := 0;
      if hintEntry.To? && offs >= hintOffs {
        i := Position(hintEntry.id);
        BeforeHint(list, hintEntry, hintOffs, i);
      }
      while i < |list| && list[i] < offs
        invariant i <= |list| && forall j :: 0 <= j < i ==> list[j] < offs
      {
        i := i + 1;
      }
      FirstFromAt(list, offs, i);
      NextHint(list, i);
      hide HintOk;
      if i == |list| {
        return -ENOENT, Nil, 0, 0;
      }
      e := To(list[i]);
      next := list[i] + 1;
      reclen := if next - offs > UINT16_MAX then UINT16_MAX else next - offs;
      hintOffs := next;
      hintEntry := if i + 1 < |list| then To(list[i + 1]) else Nil;
      err := EOK;
    }
  }

  /** The 16-bit length of a record: it leads to the next position, or as far towards it as it can. */
  ghost predicate Reclen(offs: nat, next: nat, reclen: nat) {
    0 < reclen <= UINT16_MAX && offs + reclen <= next && (offs + reclen < next ==> reclen == UINT16_MAX)
  }

  /**
   * A client that goes on by that length gets the same entry again exactly if it is 65535 positions or more past the
   * one asked for, and otherwise what follows it.
   */
  lemma {:induction false} ByReclen(list: seq<nat>, offs: nat, reclen: nat)
    requires Rising(list) && FirstFrom(list, offs).To? && Reclen(offs, FirstFrom(list, offs).id + 1, reclen)
    ensures var e := FirstFrom(list, offs);
            && (FirstFrom(list, offs + reclen) == e <==> e.id - offs >= UINT16_MAX)
            && (e.id - offs < UINT16_MAX ==> FirstFrom(list, offs + reclen) == FirstFrom(list, e.id + 1))
  {
    if list[0] < offs {
      ByReclen(list[1..], offs, reclen);
    } else if offs + reclen > list[0] {
      RestFrom(list[1..], list[0], offs + reclen);
    }
  }

  /** Behind an entry the search finds another. */
  lemma {:induction false} RestFrom(list: seq<nat>, id: nat, offs: nat)
    requires forall i :: 0 <= i < |list| ==> list[i] > id
    ensures FirstFrom(list, offs) != To(id)
  {
    if list != [] && list[0] < offs {
      RestFrom(list[1..], id, offs);
    }
  }

  /** With all positions before 65535 removed, a client at the start gets the entry there twice. */
  lemma Twice()
    ensures var list := [UINT16_MAX];
            FirstFrom(list, 0) == To(UINT16_MAX) && Reclen(0, UINT16_MAX + 1, UINT16_MAX) &&
            FirstFrom(list, 0 + UINT16_MAX) == To(UINT16_MAX)
  {
  }

  lemma BeforeHint(list: seq<nat>, hint: Link, offs: nat, i: nat)
    requires Rising(list) && HintOk(list, hint, offs) && i < |list| && hint == To(list[i])
    ensures forall j :: 0 <= j < i ==> list[j] < offs
  {
    forall j | 0 <= j < i ensures list[j] < offs {
      assert list[j] in list && list[j] < list[i];
    }
  }

  /** After a read the hint names the next entry. */
  lemma NextHint(list: seq<nat>, i: nat)
    requires Rising(list)
    ensures i < |list| ==> HintOk(list, if i + 1 < |list| then To(list[i + 1]) else Nil, list[i] + 1)
  {
  }

  lemma AddListed(ents: Entries, list: seq<nat>, nextPos: nat, more: Entries)
    requires ListOk(ents, list, nextPos) && more.Keys == ents.Keys + {nextPos}
    ensures ListOk(more, list + [nextPos], nextPos + 1)
  {
    var now := list + [nextPos];
    forall i, j | 0 <= i < j < |now| ensures now[i] < now[j] {
      assert now[i] in list;
    }
  }

  lemma AddUnique(ents: Entries, id: nat, more: Entries)
    requires Unique(ents) && more.Keys == ents.Keys + {id} && id !in ents &&
             forall x :: x in ents ==> more[x].name == ents[x].name
    requires forall x :: x in ents ==> ents[x].name != more[id].name
    ensures Unique(more)
  {
  }

  lemma UniqueLess(ents: Entries, less: Entries)
    requires Unique(ents) && less.Keys <= ents.Keys && forall x :: x in less ==> less[x].name == ents[x].name
    ensures Unique(less)
  {
  }

  lemma NotThere(ents: Entries, list: seq<nat>, nextPos: nat)
    requires ListOk(ents, list, nextPos)
    ensures nextPos !in ents
  {
  }

  lemma RemoveListed(ents: Entries, list: seq<nat>, nextPos: nat, i: nat, less: Entries)
    requires ListOk(ents, list, nextPos) && i < |list| && less.Keys == ents.Keys - {list[i]}
    ensures ListOk(less, list[..i] + list[i + 1..], nextPos)
    ensures forall x :: x in list[..i] + list[i + 1..] <==> x in list && x != list[i]
  {
    var rest := list[..i] + list[i + 1..];
    forall x ensures x in rest <==> x in list && x != list[i] {
      if x in list && x != list[i] {
        var j :| 0 <= j < |list| && list[j] == x;
        assert rest[if j < i then j else j - 1] == x;
      }
    }
  }

  /** The hint stays right when an entry goes. */
  lemma HintMoves(list: seq<nat>, hint: Link, offs: nat, i: nat)
    requires Rising(list) && i < |list| && HintOk(list, hint, offs)
    ensures var rest := list[..i] + list[i + 1..];
            HintOk(rest, if hint == To(list[i]) then if i + 1 < |list| then To(list[i + 1]) else Nil else hint, offs)
  {
    var rest := list[..i] + list[i + 1..];
    forall x ensures x in rest <==> x in list && x != list[i] {
      if x in list && x != list[i] {
        var j :| 0 <= j < |list| && list[j] == x;
        assert rest[if j < i then j else j - 1] == x;
      }
    }
    if hint == To(list[i]) && i + 1 < |list| {
      assert list[i + 1] in list;
    }
  }

  // ---------------------------------------------------------------------------------------
  // A plain directory, and that this is one

  /** Names at positions, and the position of the next one. */
  datatype Plain = Plain(names: map<nat, (string, nat, nat)>, nextPos: nat)

  datatype Op =
    | AddOp(name: string, oid: nat, kind: nat)
    | RemoveOp(path: string)
    | GetOp(path: string)
    | ReadOp(offs: nat)

  /** An error code, the entry found, and after a read the position to go on from. */
  datatype Answer = Answer(err: int, entry: Link, next: nat)

  ghost predicate HasName(p: Plain, name: string) {
    exists id :: id in p.names && p.names[id].0 == name
  }

  /** An entry of the name, if there is one. */
  ghost predicate Named(p: Plain, name: string, e: Link) {
    match e
    case To(id) => id in p.names && p.names[id].0 == name
    case Nil => !HasName(p, name)
  }

  /** What a plain directory answers to an operation, and what it is afterwards. */
  ghost predicate Answers(p: Plain, op: Op, a: Answer, q: Plain) {
    match op
    case AddOp(name, oid, kind) =>
      a.err == (if |name| > NAME_MAX then -ENAMETOOLONG else if HasName(p, name) then -EEXIST else EOK) &&
      q == if a.err == EOK then Plain(p.names[p.nextPos := (name, oid, kind)], p.nextPos + 1) else p
    case RemoveOp(path) =>
      if HasName(p, Component(path)) then
        a.err == EOK &&
        exists id :: id in p.names && p.names[id].0 == Component(path) && q == p.(names := p.names - {id})
      else a.err == -ENOENT && q == p
    case GetOp(path) =>
      q == p && Named(p, Component(path), a.entry)
    case ReadOp(offs) =>
      q == p && IsFirst(p.names.Keys, offs, a.entry) && (a.err == if a.entry.To? then EOK else -ENOENT) &&
      (a.entry.To? ==> a.next == a.entry.id + 1)
  }

  /** The least position at or after `offs`. */
  ghost predicate IsFirst(ids: set<nat>, offs: nat, e: Link) {
    match e
    case To(id) => id in ids && id >= offs && forall x :: x in ids && x >= offs ==> id <= x
    case Nil => forall x :: x in ids ==> x < offs
  }

  lemma {:induction false} FirstIsFirst(list: seq<nat>, ids: set<nat>, offs: nat)
    requires Rising(list) && forall x :: x in list <==> x in ids
    ensures IsFirst(ids, offs, FirstFrom(list, offs))
  {
    if list == [] {
    } else if list[0] >= offs {
      assert forall x :: x in ids ==> x in list;
    } else {
      var rest, others := list[1..], ids - {list[0]};
      assert forall x :: x in rest <==> x in list && x != list[0];
      FirstIsFirst(rest, others, offs);
      assert forall x :: x in ids && x >= offs ==> x in others;
    }
  }

  lemma NameKnown(ents: Entries, nextPos: nat, name: string)
    ensures HasName(Plain(View(ents), nextPos), name) <==> exists id :: id in ents && ents[id].name == name
  {
    var p := Plain(View(ents), nextPos);
    if id :| id in ents && ents[id].name == name {
      assert id in p.names && p.names[id].0 == name;
    }
  }

  /** Whatever is done with a directory, hashed, chained and hinted as it is, it answers like a plain one. */
  method Simulate(ops: seq<Op>) returns (answers: seq<Answer>, ghost states: seq<Plain>)
    ensures |answers| == |ops| && |states| == |ops| + 1 && states[0] == Plain(map[], 0)
    ensures forall i :: 0 <= i < |ops| ==> Answers(states[i], ops[i], answers[i], states[i + 1])
  {
    var d := new Directory();
    answers, states := [], [Plain(View(d.ents), d.nextPos)];
    while |answers| < |ops|
      invariant |answers| <= |ops| && |states| == |answers| + 1 && fresh(d) && d.Valid()
      invariant states[0] == Plain(map[], 0) && states[|answers|] == Plain(View(d.ents), d.nextPos)
      invariant forall i :: 0 <= i < |answers| ==> Answers(states[i], ops[i], answers[i], states[i + 1])
    {
      var a := Do(d, ops[|answers|]);
      answers, states := answers + [a], states + [Plain(View(d.ents), d.nextPos)];
    }
  }

  method Do(d: Directory, op: Op) returns (a: Answer)
    requires d.Valid()
    modifies d
    ensures d.Valid() && Answers(old(Plain(View(d.ents), d.nextPos)), op, a, Plain(View(d.ents), d.nextPos))
    ensures op.ReadOp? && a.err == -ENOENT ==> a.entry == Nil
  {
    hide Hash, ChainsOk, Unique, FirstFrom, DirOk;
    match op {
      case AddOp(name, oid, kind) =>
        NameKnown(d.ents, d.nextPos, name);
        var err := d.Add(name, oid, kind);
        a := Answer(err, Nil, 0);
      case RemoveOp(path) =>
        NameKnown(d.ents, d.nextPos, Component(path));
        var err; ghost var id;
        err, id := d.Remove(path);
        a := Answer(err, Nil, 0);
      case GetOp(path) =>
        NameKnown(d.ents, d.nextPos, Component(path));
        var e := d.Get(path);
        a := Answer(EOK, e, 0);
      case ReadOp(offs) =>
        Listed(d.ents, d.tree, d.chains, d.list, d.nextPos, d.entries, d.hintEntry, d.hintOffs, offs);
        var err, e, next, _ := d.ReaddirNext(offs);
        a := Answer(err, e, next);
    }
  }

  lemma Listed(ents: Entries, tree: map<nat, nat>, chains: map<nat, seq<nat>>, list: seq<nat>, nextPos: nat,
               entries: nat, hint: Link, hintOffs: nat, offs: nat)
    requires DirOk(ents, tree, chains, list, nextPos, entries, hint, hintOffs)
    ensures IsFirst(View(ents).Keys, offs, FirstFrom(list, offs))
  {
    hide ChainsOk, FirstFrom;
    FirstIsFirst(list, View(ents).Keys, offs);
  }

  // ---------------------------------------------------------------------------------------
  // A listing among other operations

  /** The next read of the listing, from where the last one ended, or anything else. */
  datatype Move = Next | Other(op: Op)

  ghost predicate Throughout(states: seq<Plain>, id: nat) {
    forall k :: 0 <= k < |states| ==> id in states[k].names
  }

  /** Whatever stays and comes before the cursor was seen. */
  ghost predicate SeenUpTo(states: seq<Plain>, seen: seq<nat>, cursor: nat) {
    forall id: nat :: Throughout(states, id) && id < cursor ==> id in seen
  }

  lemma ThroughoutLess(states: seq<Plain>, now: Plain, id: nat)
    requires Throughout(states + [now], id)
    ensures Throughout(states, id)
  {
    assert forall k :: 0 <= k < |states| ==> (states + [now])[k] == states[k];
  }

  lemma ReadSees(states: seq<Plain>, p: Plain, seen: seq<nat>, cursor: nat, a: Answer)
    requires 0 < |states| && states[|states| - 1] == p && SeenUpTo(states, seen, cursor) &&
             Answers(p, ReadOp(cursor), a, p)
    ensures a.entry.To? ==> cursor <= a.entry.id < a.next && SeenUpTo(states, seen + [a.entry.id], a.next)
    ensures a.entry.Nil? ==> forall id: nat :: Throughout(states, id) ==> id in seen
  {
    forall id | Throughout(states, id) ensures id in p.names.Keys {
      assert id in states[|states| - 1].names;
    }
  }

  /** An entry that an operation leaves keeps its place and what it names. */
  lemma EntryStays(p: Plain, op: Op, a: Answer, q: Plain, id: nat)
    requires Answers(p, op, a, q) && id in p.names && id in q.names && id != p.nextPos
    ensures q.names[id] == p.names[id]
  {
  }

  /**
   * A listing, each read going on where the last one ended, among any other operations: positions rise, so nothing
   * comes twice, and when it comes to the end, every entry that was there all the time has come.
   */
  method List(d: Directory, moves: seq<Move>) returns (seen: seq<nat>, ended: bool, ghost states: seq<Plain>)
    requires d.Valid()
    modifies d
    ensures d.Valid() && |states| == |moves| + 1 && states[0] == old(Plain(View(d.ents), d.nextPos))
    ensures forall i :: 0 <= i < |moves| ==> StepOf(states[i], moves[i], states[i + 1])
    ensures Rising(seen)
    ensures ended ==> forall id: nat :: Throughout(states, id) ==> id in seen
    ensures forall id :: id in seen ==> exists k :: 0 <= k < |states| && id in states[k].names
  {
    hide View, Rising, Answers;
    seen, ended, states := [], false, [Plain(View(d.ents), d.nextPos)];
    assert Rising([]) by {
      RisingNone();
    }
    var i, cursor: nat := 0, 0;
    while i < |moves|
      invariant i <= |moves| && d.Valid() && |states| == i + 1 && states[i] == Plain(View(d.ents), d.nextPos)
      invariant states[0] == old(Plain(View(d.ents), d.nextPos))
      invariant forall j :: 0 <= j < i ==> StepOf(states[j], moves[j], states[j + 1])
      invariant Rising(seen) && (forall id :: id in seen ==> id < cursor) && SeenUpTo(states, seen, cursor)
      invariant ended ==> forall id: nat :: Throughout(states, id) ==> id in seen
      invariant forall id :: id in seen ==> exists k :: 0 <= k < |states| && id in states[k].names
    {
      ghost var before, p := states, states[i];
      var op := if moves[i].Next? then ReadOp(cursor) else moves[i].op;
      var a := Do(d, op);
      ghost var q := Plain(View(d.ents), d.nextPos);
      if moves[i].Next? {
        ReadKeeps(p, cursor, a, q);
        ReadSees(states, p, seen, cursor, a);
        if a.entry.To? {
          RisingMore(seen, a.entry.id);
          seen, cursor := seen + [a.entry.id], a.next;
          assert a.entry.id in states[i].names;
        } else {
          ended := true;
        }
      }
      states := states + [q];
      forall id | Throughout(states, id) ensures Throughout(before, id) {
        ThroughoutLess(before, q, id);
      }
      forall id | id in seen ensures exists k :: 0 <= k < |states| && id in states[k].names {
        var k :| 0 <= k < |before| && id in before[k].names;
        assert states[k] == before[k];
      }
      i := i + 1;
    }
  }

  ghost predicate StepOf(p: Plain, m: Move, q: Plain) {
    match m
    case Next => q == p
    case Other(op) => exists a :: Answers(p, op, a, q)
  }

  lemma ReadKeeps(p: Plain, offs: nat, a: Answer, q: Plain)
    requires Answers(p, ReadOp(offs), a, q)
    ensures q == p && (a.entry.To? ==> a.entry.id in p.names)
  {
  }

  lemma RisingNone()
    ensures Rising([])
  {
  }

  lemma RisingMore(seen: seq<nat>, id: nat)
    requires Rising(seen) && forall x :: x in seen ==> x < id
    ensures Rising(seen + [id])
  {
    var more := seen + [id];
    forall i, j | 0 <= i < j < |more| ensures more[i] < more[j] {
      assert more[i] == seen[i] && seen[i] in seen;
    }
  }
}
